/** How the kernel starts: PhysicalAllocator::init, PageTable::init and kheap::init, in the order of
    src/high/init/start.cpp:57-64, and single frames taken and given back after that. */
module Boot {
  import opened Bitmaps
  import opened BootTables
  import opened Common
  import opened FrameAllocator
  import KernelHeap
  import opened MemoryMap
  import opened PageHeap
  import opened PageTables
  import opened Paging
  import Subregion

  // The frames of the usable pages, and of those that some range touches.
  ghost function UsableFrames(pages: seq<nat>): set<nat> {
    set i | 0 <= i < |pages| :: pages[i] / PAGE
  }

  ghost function BookedFrames(pages: seq<nat>, ranges: seq<Subregion.Interval>): set<nat> {
    set i | 0 <= i < |pages| && Booked(pages[i], ranges) :: pages[i] / PAGE
  }

  ghost predicate IsTable(mem: Memory, root: nat, f: nat) {
    exists p: seq<nat> :: |p| <= 3 && TableAt(mem, root, p) == Some(f)
  }

  ghost function Tables(mem: Memory, root: nat): set<nat> {
    set f | f in mem && IsTable(mem, root, f)
  }

  // A set bit is a reservation of init, or a frame in use since then.
  ghost predicate Accounts(bits: seq<bool>, pages: seq<nat>, ranges: seq<Subregion.Interval>, used: set<nat>)
    requires |bits| == |pages|
  {
    forall i :: 0 <= i < |bits| ==> (bits[i] <==> Booked(pages[i], ranges) || pages[i] / PAGE in used)
  }

  // After init it is so for tables within reserved pages.
  lemma BookedAccounts(bits: seq<bool>, pages: seq<nat>, ranges: seq<Subregion.Interval>, tables: set<nat>)
    requires |bits| == |pages| && BitsBooked(bits, pages, ranges)
    requires forall i :: 0 <= i < |pages| && pages[i] / PAGE in tables ==> Booked(pages[i], ranges)
    ensures Accounts(bits, pages, ranges, tables)
  {
  }

  // It stays so when free frames come into use.
  lemma {:induction false} AccountsMore(bits: seq<bool>, bits': seq<bool>, pages: seq<nat>,
      ranges: seq<Subregion.Interval>, used: set<nat>, more: set<nat>)
    requires Ascending(pages) && |bits| == |bits'| == |pages| && Accounts(bits, pages, ranges, used)
    requires more <= FreeFrames(bits, pages) && FreeFrames(bits', pages) == FreeFrames(bits, pages) - more
    ensures Accounts(bits', pages, ranges, used + more)
  {
    hide Booked;
    forall i | 0 <= i < |pages|
      ensures bits[i] <==> pages[i] / PAGE !in FreeFrames(bits, pages)
      ensures bits'[i] <==> pages[i] / PAGE !in FreeFrames(bits', pages)
    {
      FramesWithout(bits, pages, i, true);
      FramesWithout(bits', pages, i, true);
    }
  }

  // The tables after a step of the page tables: those before it and the frames that it has taken.
  lemma {:induction false} AccountedTables(mem: Memory, mem': Memory, root: nat, free: set<nat>, free': set<nat>)
    requires Tree(mem, root, free) && Tree(mem', root, free') && Accounted(mem, mem', root, free, free')
    ensures Tables(mem', root) == Tables(mem, root) + (free - free')
  {
    hide TableAt;
    forall f: nat
      ensures IsTable(mem', root, f) ==> f in mem'
      ensures IsTable(mem, root, f) ==> f in mem
      ensures IsTable(mem', root, f) <==> IsTable(mem, root, f) || f in free - free'
    {
      if IsTable(mem', root, f) {
        var p :| |p| <= 3 && TableAt(mem', root, p) == Some(f);
        assert TableAt(mem, root, p).Some? ==> TableAt(mem, root, p) == Some(f);
      }
      if IsTable(mem, root, f) {
        var p :| |p| <= 3 && TableAt(mem, root, p) == Some(f);
        assert TableAt(mem', root, p) == Some(f);
      }
      if f in free - free' {
        assert NewTable(mem, mem', root, f);
        var p :| |p| <= 3 && TableAt(mem, root, p).None? && TableAt(mem', root, p) == Some(f);
      }
    }
  }

  // ---------------------------------------------------------------- what the heap needs

  lemma {:induction false} OnlyTables(mem: Memory, root: nat, free: set<nat>, p: seq<nat>)
    requires Tree(mem, root, free) && KernelHeap.NothingYet(mem, root)
    ensures OwnedAt(mem, root, p) == if |p| <= 3 then TableAt(mem, root, p) else None
    ensures OwnedAt(mem, root, p).Some? ==> OwnedAt(mem, root, p).value in mem && OwnedAt(mem, root, p).value !in free
  {
    if |p| == 4 && InHeap(p) {
      KernelHeap.NothingAt(mem, root, p);
    }
  }

  // With nothing mapped by the heap yet, the bitmap, the reservations of init and the tables share out
  // the usable frames as the heap wants it; what init reserved is what is in use elsewhere.
  lemma {:induction false} BootConserved(mem: Memory, root: nat, bits: seq<bool>, pages: seq<nat>,
      ranges: seq<Subregion.Interval>)
    requires Ascending(pages) && |bits| == |pages| && Accounts(bits, pages, ranges, Tables(mem, root))
    requires Tree(mem, root, FreeFrames(bits, pages)) && KernelHeap.NothingYet(mem, root)
    ensures Conserved(mem, root, FreeFrames(bits, pages), BookedFrames(pages, ranges) - Tables(mem, root),
                      UsableFrames(pages) + Tables(mem, root))
  {
    var free := FreeFrames(bits, pages);
    forall p
      ensures OwnedAt(mem, root, p) == if |p| <= 3 then TableAt(mem, root, p) else None
      ensures OwnedAt(mem, root, p).Some? ==> OwnedAt(mem, root, p).value in Tables(mem, root)
      ensures OwnedAt(mem, root, p).Some? ==> OwnedAt(mem, root, p).value !in free
    {
      OnlyTables(mem, root, free, p);
    }
    forall f: nat
      ensures f in free ==> f in UsableFrames(pages) && f !in BookedFrames(pages, ranges)
      ensures f in UsableFrames(pages) ==> f in free || f in BookedFrames(pages, ranges) || f in Tables(mem, root)
    {
      FrameIsOne(bits, pages, ranges, Tables(mem, root), f);
    }
    forall f: nat
      ensures Owned(mem, root, f) <==> f in Tables(mem, root)
    {
      if f in Tables(mem, root) {
        var p :| |p| <= 3 && TableAt(mem, root, p) == Some(f);
        assert OwnedAt(mem, root, p) == Some(f);
      }
    }
    hide FreeFrames, TableAt, OwnedAt, Accounts, Tables;
  }

  lemma {:induction false} FrameIsOne(bits: seq<bool>, pages: seq<nat>, ranges: seq<Subregion.Interval>,
      tables: set<nat>, f: nat)
    requires Ascending(pages) && |bits| == |pages| && Accounts(bits, pages, ranges, tables)
    ensures f in FreeFrames(bits, pages) ==> f in UsableFrames(pages) && f !in BookedFrames(pages, ranges)
    ensures f in UsableFrames(pages) ==>
              f in FreeFrames(bits, pages) || f in BookedFrames(pages, ranges) || f in tables
  {
    if f in FreeFrames(bits, pages) {
      var i :| 0 <= i < |bits| && !bits[i] && pages[i] / PAGE == f;
      forall j | 0 <= j < |pages| && pages[j] / PAGE == f
        ensures j == i
      {
        FrameOnce(pages, i, j);
      }
    }
    hide Booked;
    if f in UsableFrames(pages) {
      var i :| 0 <= i < |pages| && pages[i] / PAGE == f;
      assert !bits[i] ==> f in FreeFrames(bits, pages);
    }
  }

  lemma {:induction false} BootInv(mem: Memory, root: nat, bits: seq<bool>, pages: seq<nat>,
      ranges: seq<Subregion.Interval>)
    requires Ascending(pages) && |bits| == |pages| && Accounts(bits, pages, ranges, Tables(mem, root))
    requires Tree(mem, root, FreeFrames(bits, pages)) && Covered(mem, root) && KernelHeap.NothingYet(mem, root)
    ensures HeapInv(mem, root, FreeFrames(bits, pages), BookedFrames(pages, ranges) - Tables(mem, root),
                    UsableFrames(pages) + Tables(mem, root))
  {
    BootConserved(mem, root, bits, pages, ranges);
    forall p | 0 < |p| <= 4 && InHeap(p)
      ensures Slot(mem, root, p).None?
    {
      KernelHeap.NothingAt(mem, root, p);
    }
  }

  // ---------------------------------------------------------------- one frame at a time

  function FreeOf(a: Allocator): set<nat>
    requires a.Valid()
    reads a, a.bitmap
  {
    FreeFrames(a.Bits(), Pages(a.regions))
  }

  // The page tables take their frames from the bitmap, whose set bits are the reservations of init and
  // the tables.
  ghost predicate OnBitmap(a: Allocator, pt: PageTable, ranges: seq<Subregion.Interval>)
    reads a, a.bitmap, pt
  {
    && a.Valid() && pt.free == FreeOf(a)
    && Accounts(a.Bits(), Pages(a.regions), ranges, Tables(pt.mem, pt.root))
  }

  // alloc(1): one of the free frames, unless there is none; what map and the page heap take.
  method TakeFrame(a: Allocator) returns (f: Option<nat>)
    requires a.Valid()
    modifies a, a.bitmap
    ensures a.Valid()
    ensures f.None? <==> old(FreeOf(a)) == {}
    ensures f.None? ==> a.Bits() == old(a.Bits())
    ensures f.Some? ==> f.value in old(FreeOf(a)) && FreeOf(a) == old(FreeOf(a)) - {f.value}
  {
    hide BitsOf, Aligned, Sorted, Pages, FreeRun, Reserved, HasRun, NextFit, FreeFrames;
    ghost var bits, pages := a.Bits(), Pages(a.regions);
    PagesFrom(a.regions, 0);
    OnePage(bits, a.cursor);
    OneFrame(bits, pages, a.cursor, true);
    var address := a.Alloc(1);
    if address.None? {
      return None;
    }
    RunOfOne(bits, a.cursor);
    OneFrame(bits, pages, a.cursor, true);
    return Some(address.value / PAGE);
  }

  // free(page, 1), of a page that is usable.
  method GiveFrame(a: Allocator, f: nat)
    requires a.Valid() && f in UsableFrames(Pages(a.regions))
    modifies a.bitmap
    ensures a.Valid() && FreeOf(a) == old(FreeOf(a)) + {f}
  {
    hide BitsOf, Aligned, Sorted, Pages, Reserved, HasRun, FreeFrames;
    ghost var bits, pages := a.Bits(), Pages(a.regions);
    PagesFrom(a.regions, 0);
    ghost var c :| 0 <= c < |pages| && pages[c] / PAGE == f;
    OneFrame(bits, pages, c, false);
    a.Free(f * PAGE, 1);
  }

  // A step of the page tables, and one of the bitmap that takes the same frames.
  lemma {:induction false} StillAccounts(bits: seq<bool>, bits': seq<bool>, pages: seq<nat>,
      ranges: seq<Subregion.Interval>, mem: Memory, mem': Memory, root: nat)
    requires Ascending(pages) && |bits| == |bits'| == |pages| && Accounts(bits, pages, ranges, Tables(mem, root))
    requires var free, free' := FreeFrames(bits, pages), FreeFrames(bits', pages);
             Tree(mem, root, free) && Tree(mem', root, free') && Accounted(mem, mem', root, free, free')
    ensures Accounts(bits', pages, ranges, Tables(mem', root))
  {
    var free, free' := FreeFrames(bits, pages), FreeFrames(bits', pages);
    AccountedTables(mem, mem', root, free, free');
    var more := free - free';
    assert free' <= free by { AccountedLess(mem, mem', root, free, free'); }
    assert free' == free - more;
    hide *;
    AccountsMore(bits, bits', pages, ranges, Tables(mem, root), more);
  }

  lemma AccountedLess(mem: Memory, mem': Memory, root: nat, free: set<nat>, free': set<nat>)
    requires Accounted(mem, mem', root, free, free')
    ensures free' <= free
  {
  }

  lemma TableNotFree(mem: Memory, root: nat, free: set<nat>, p: seq<nat>)
    requires Tree(mem, root, free) && |p| <= 3 && TableAt(mem, root, p).Some?
    ensures TableAt(mem, root, p).value !in free
  {
  }

  // A turn of map's loop that finds no table (paging.cpp:35-42 and 88-99): alloc(1), and the frame is
  // hung in.  Without a frame the source panics.
  method TakeTable(a: Allocator, pt: PageTable, t: nat, page: seq<nat>, d: nat, f: Flags,
      ghost ranges: seq<Subregion.Interval>) returns (next: Option<nat>)
    requires OnBitmap(a, pt, ranges) && AtLevel(pt.mem, pt.root, pt.free, t, page, d, f) && d < 3
    requires t in pt.mem && page[d] < |pt.mem[t]| && !pt.mem[t][page[d]].present
    modifies a, a.bitmap, pt
    ensures next.None? <==> old(FreeOf(a)) == {}
    ensures OnBitmap(a, pt, ranges)
    ensures next.None? ==> pt.mem == old(pt.mem)
    ensures next.Some? ==>
              && next.value in old(FreeOf(a)) && FreeOf(a) == old(FreeOf(a)) - {next.value}
              && TurnDone(old(pt.mem), pt.mem, pt.root, pt.free, next.value, page, d, f)
  {
    hide BitsOf, Aligned, Sorted, Pages, FreeFrames, Accounts, Tables, Tree, Covered, TableAt, EntryAt, SmallPath;
    hide Accounted, IsPath, Cleared, Agrees, Widened;
    PagesFrom(a.regions, 0);
    TableNotFree(pt.mem, pt.root, pt.free, page[..d]);
    ghost var bits, pages := a.Bits(), Pages(a.regions);
    next := TakeFrame(a);
    if next.Some? {
      var e := pt.mem[t][page[d]];
      LinkTurn(pt.mem, pt.root, pt.free, t, page, d, f, next.value);
      StillAccounts(bits, a.Bits(), pages, ranges, pt.mem,
                    LinkNew(pt.mem, t, page[d], Widen(e, next.value, f), Cleared()), pt.root);
      pt.mem := LinkNew(pt.mem, t, page[d], Widen(e, next.value, f), Cleared());
      pt.free := pt.free - {next.value};
    }
  }

  // ---------------------------------------------------------------- the window

  // The run that alloc(count) is to find lies in one piece.
  ghost predicate OnePiece(pages: seq<nat>, c: nat, count: nat) {
    0 < count && c + count <= |pages| && pages[c + count - 1] == pages[c] + (count - 1) * PAGE
  }

  // alloc(64) ends, and the run it finds, if any, is in one piece.
  ghost predicate WindowFits(bits: seq<bool>, pages: seq<nat>, cursor: nat)
    requires cursor < |bits| == |pages|
  {
    && (bits[cursor] || HasRun(bits, 64))
    && forall c: nat :: c < |bits| && FreeRun(bits, c, 64) && NextFit(bits, cursor, c, 64) ==> OnePiece(pages, c, 64)
  }

  // In one piece, a run is as many free frames in a row, and no frame else is taken with them.
  lemma {:induction false} RunTaken(bits: seq<bool>, pages: seq<nat>, c: nat, count: nat)
    requires Ascending(pages) && |bits| == |pages| && OnePiece(pages, c, count) && FreeRun(bits, c, count)
    ensures var bits' := Reserved(bits, pages, pages[c], count * PAGE, true);
            && FrameRun(pages[c] / PAGE, count) <= FreeFrames(bits, pages)
            && |bits'| == |bits|
            && FreeFrames(bits', pages) == FreeFrames(bits, pages) - FrameRun(pages[c] / PAGE, count)
  {
    ReservesTheRun(bits, pages, c, count);
    var bits' := Reserved(bits, pages, pages[c], count * PAGE, true);
    var run := FrameRun(pages[c] / PAGE, count);
    hide FreeRun, Reserved, FrameRun;
    assert pages[c] % PAGE == 0;
    forall i | 0 <= i < |pages|
      ensures pages[i] / PAGE in run <==> c <= i < c + count
    {
      InRun(pages, c, count, i);
    }
    forall f | f in run
      ensures f in FreeFrames(bits, pages)
    {
      var i := c + (f - pages[c] / PAGE);
      assert !bits[i] && pages[i] / PAGE == f;
    }
    forall f: nat
      ensures f in FreeFrames(bits', pages) <==> f in FreeFrames(bits, pages) && f !in run
    {
      if f in FreeFrames(bits, pages) && f !in run {
        var i :| 0 <= i < |bits| && !bits[i] && pages[i] / PAGE == f;
        assert !bits'[i];
      }
      if f in FreeFrames(bits', pages) {
        var i :| 0 <= i < |bits'| && !bits'[i] && pages[i] / PAGE == f;
        assert !bits[i];
      }
    }
  }

  lemma {:induction false} InRun(pages: seq<nat>, c: nat, count: nat, i: nat)
    requires Ascending(pages) && OnePiece(pages, c, count) && i < |pages|
    requires forall j :: c <= j < c + count ==> pages[j] == pages[c] + (j - c) * PAGE
    ensures pages[i] / PAGE in FrameRun(pages[c] / PAGE, count) <==> c <= i < c + count
  {
    assert pages[c] % PAGE == 0 && pages[i] % PAGE == 0;
    if i < c {
      PagesApart(pages, i, c);
    } else if i >= c + count {
      PagesApart(pages, c + count - 1, i);
    }
  }

  // Hung into empty root entries, the tables of the window are new and the only new ones.
  lemma {:induction false} WindowAccounted(mem: Memory, mem': Memory, root: nat, free: set<nat>, base: nat)
    requires WindowTables(mem, mem', root, base, 64) && FrameRun(base, 64) <= free
    requires forall k :: 128 <= k < 192 ==> Slot(mem, root, [k]).None?
    ensures Accounted(mem, mem', root, free, free - FrameRun(base, 64))
  {
    hide Slot, TableAt, EntryAt;
    forall p: seq<nat> | |p| <= 3 && p != [] && 128 <= p[0] < 192
      ensures TableAt(mem, root, p).None?
      ensures TableAt(mem', root, p).Some? ==> TableAt(mem', root, p) == Some(base + (p[0] - 128))
    {
      NoTableThere(mem, root, p);
      WindowTable(mem, mem', root, base, p);
    }
    forall f | f in FrameRun(base, 64)
      ensures NewTable(mem, mem', root, f)
    {
      var p := [128 + (f - base)];
      assert TableAt(mem, root, p).None? && TableAt(mem', root, p) == Some(f);
    }
    hide WindowTables, NewTable;
    forall p: seq<nat> | |p| <= 3 && (p == [] || !(128 <= p[0] < 192))
      ensures TableAt(mem', root, p) == TableAt(mem, root, p)
    {
      OutsideWindow(mem, mem', root, base, p);
    }
  }

  lemma WindowTable(mem: Memory, mem': Memory, root: nat, base: nat, p: seq<nat>)
    requires WindowTables(mem, mem', root, base, 64) && 0 < |p| <= 3 && 128 <= p[0] < 192
    ensures TableAt(mem', root, p).Some? ==> TableAt(mem', root, p) == Some(base + (p[0] - 128))
  {
    hide TableAt, EntryAt;
    if |p| == 1 {
      assert p == [p[0]];
    }
  }

  lemma OutsideWindow(mem: Memory, mem': Memory, root: nat, base: nat, p: seq<nat>)
    requires WindowTables(mem, mem', root, base, 64) && |p| <= 3 && (p == [] || !(128 <= p[0] < 192))
    ensures TableAt(mem', root, p) == TableAt(mem, root, p)
  {
    hide TableAt, EntryAt;
  }

  lemma {:induction false} NoTableThere(mem: Memory, root: nat, p: seq<nat>)
    requires p != [] && Slot(mem, root, [p[0]]).None?
    ensures TableAt(mem, root, p).None?
  {
    if |p| == 1 {
      assert p == [p[0]];
    } else {
      assert [p[0]] <= p;
      NoneBelow(mem, root, [p[0]], p);
    }
  }

  // PageTable::init: alloc(64) and the window.  Without so many frames the source panics.
  method TakeWindow(a: Allocator, pt: PageTable, ghost ranges: seq<Subregion.Interval>) returns (ok: bool)
    requires OnBitmap(a, pt, ranges) && pt.Valid() && WindowFits(a.Bits(), Pages(a.regions), a.cursor)
    requires forall k :: 128 <= k < 192 ==> Slot(pt.mem, pt.root, [k]).None?
    modifies a, a.bitmap, pt
    ensures OnBitmap(a, pt, ranges) && pt.Valid()
    ensures ok <==> old(HasRun(a.Bits(), 64))
    ensures !ok ==> a.Bits() == old(a.Bits()) && pt.mem == old(pt.mem)
    ensures ok ==> WindowShown(pt.mem, pt.root)
    ensures ok ==> exists base :: WindowTables(old(pt.mem), pt.mem, pt.root, base, 64)
    ensures ok ==> forall page :: IsPage(page) && !InWindow(page) ==>
                     Walk(pt.mem, pt.root, 0, page) == Walk(old(pt.mem), pt.root, 0, page)
  {
    hide BitsOf, Aligned, Sorted, Pages, FreeFrames, Accounts, Tables, Tree, Covered, TableAt, EntryAt, Slot, Walk;
    hide Reserved, FreeRun, HasRun, NextFit, WindowTables, WindowShown, OnePiece;
    PagesFrom(a.regions, 0);
    ghost var bits, pages, mem, free := a.Bits(), Pages(a.regions), pt.mem, pt.free;
    var address: Option<nat> := a.Alloc(64);
    if address.None? {
      return false;
    }
    RunTaken(bits, pages, a.cursor, 64);
    pt.Init(address.value / PAGE);
    WindowAccounted(mem, pt.mem, pt.root, free, address.value / PAGE);
    StillAccounts(bits, a.Bits(), pages, ranges, mem, pt.mem, pt.root);
    return true;
  }

  // ---------------------------------------------------------------- from the first instruction to the heap

  // The tables on which the kernel starts are part of its image (targets/linker.ld:25-85).
  ghost predicate InImage(b: Image, kernel: Subregion.Interval) {
    forall f: nat :: IsBootTable(b, f) ==> kernel.left <= f * PAGE < kernel.right
  }

  // The bitmap that init leaves, and the frames it keeps.
  ghost function InitBits(pages: seq<nat>, place: nat, info: Subregion.Interval, trampoline: Subregion.Interval,
      kernel: Subregion.Interval): (bits: seq<bool>)
    ensures |bits| == |pages|
  {
    seq(|pages|, i requires 0 <= i < |pages| => InitKeeps(pages[i], place, |pages|, info, trampoline, kernel))
  }

  ghost function KeptFrames(pages: seq<nat>, place: nat, info: Subregion.Interval, trampoline: Subregion.Interval,
      kernel: Subregion.Interval): set<nat>
  {
    set i | 0 <= i < |pages| && InitKeeps(pages[i], place, |pages|, info, trampoline, kernel) :: pages[i] / PAGE
  }

  lemma KeptIsBooked(pages: seq<nat>, place: nat, info: Subregion.Interval, trampoline: Subregion.Interval,
      kernel: Subregion.Interval)
    requires Ascending(pages)
    ensures var ranges := BootRanges(place, |pages|, info, trampoline, kernel);
            && BookedFrames(pages, ranges) == KeptFrames(pages, place, info, trampoline, kernel)
            && forall i :: 0 <= i < |pages| ==>
                 (Booked(pages[i], ranges) <==> InitKeeps(pages[i], place, |pages|, info, trampoline, kernel))
  {
    hide Booked, InitKeeps, BootRanges;
    forall i | 0 <= i < |pages|
      ensures Booked(pages[i], BootRanges(place, |pages|, info, trampoline, kernel)) <==>
              InitKeeps(pages[i], place, |pages|, info, trampoline, kernel)
    {
      assert pages[i] % PAGE == 0;
      BookedIsKept(pages[i], place, |pages|, info, trampoline, kernel);
    }
  }

  lemma InitBitsIs(bits: seq<bool>, pages: seq<nat>, place: nat, info: Subregion.Interval,
      trampoline: Subregion.Interval, kernel: Subregion.Interval)
    requires |bits| == |pages|
    requires forall i :: 0 <= i < |bits| ==>
               (bits[i] <==> InitKeeps(pages[i], place, |pages|, info, trampoline, kernel))
    ensures bits == InitBits(pages, place, info, trampoline, kernel)
  {
    hide InitKeeps;
  }

  // At the end the bits are read off the pages that init keeps, and the tables.
  lemma BitsAtEnd(bits: seq<bool>, pages: seq<nat>, place: nat, info: Subregion.Interval,
      trampoline: Subregion.Interval, kernel: Subregion.Interval, tables: set<nat>)
    requires |bits| == |pages| && Ascending(pages)
    requires Accounts(bits, pages, BootRanges(place, |pages|, info, trampoline, kernel), tables)
    ensures forall i :: 0 <= i < |bits| ==>
              (bits[i] <==>
                 InitKeeps(pages[i], place, |pages|, info, trampoline, kernel) || pages[i] / PAGE in tables)
  {
    KeptIsBooked(pages, place, info, trampoline, kernel);
    hide Booked, InitKeeps, BootRanges;
  }

  // Pages of the image are reserved, and so are the tables in it.
  lemma {:induction false} ImageAccounts(bits: seq<bool>, pages: seq<nat>, ranges: seq<Subregion.Interval>,
      kernel: Subregion.Interval, b: Image, mem: Memory)
    requires Ascending(pages) && |bits| == |pages| && BitsBooked(bits, pages, ranges) && kernel in ranges
    requires Booted(mem, b) && InImage(b, kernel)
    ensures var free := FreeFrames(bits, pages);
            Tree(mem, b.l4, free) && Accounts(bits, pages, ranges, Tables(mem, b.l4))
  {
    BootTree(mem, b, {});
    assert Tables(mem, b.l4) <= set f | f in mem && IsBootTable(b, f);
    hide TableAt, EntryAt, Tree, Booted, Tables;
    forall i | 0 <= i < |pages| && IsBootTable(b, pages[i] / PAGE)
      ensures Booked(pages[i], ranges)
    {
      assert pages[i] % PAGE == 0;
      ImagePage(pages[i], kernel);
    }
    BookedAccounts(bits, pages, ranges, Tables(mem, b.l4));
    hide Booked;
    forall i | 0 <= i < |bits| && !bits[i]
      ensures !IsBootTable(b, pages[i] / PAGE)
    {
    }
    BootTree(mem, b, FreeFrames(bits, pages));
  }

  lemma ImagePage(page: nat, kernel: Subregion.Interval)
    requires page % PAGE == 0 && kernel.left <= page < kernel.right
    ensures Align(kernel.left) <= page < RangeEnd(kernel.left, kernel.right - kernel.left)
  {
  }

  lemma NothingAboveWindow(mem: Memory, mem': Memory, root: nat, base: nat)
    requires WindowTables(mem, mem', root, base, 64)
    requires forall k :: 0 <= k < 512 && k != 0 && k != HIGH ==> Slot(mem, root, [k]).None?
    ensures KernelHeap.NothingYet(mem', root)
  {
    hide EntryAt;
    forall k | HEAP_LOW <= k < 252
      ensures Slot(mem', root, [k]).None?
    {
      assert [k][0] == k;
      assert Slot(mem, root, [k]).None?;
    }
  }

  // From a memory map and the tables of the boot code: the frame allocator's init, PageTable::init and the
  // heap's.  No block is in use then; the free frames are those of clear bits; every usable frame is free, a
  // table, or reserved by init; the window shows memory, and every page outside of it is mapped as before.
  method BootHeap(regions: seq<Region>, place: nat, info: Subregion.Interval, trampoline: Subregion.Interval,
      kernel: Subregion.Interval, mem: Memory, b: Image) returns (a: Allocator, h: KernelHeap.KernelHeap?)
    requires Aligned(regions) && Sorted(regions) && Pages(regions) != []
    requires info.left <= info.right && trampoline.left <= trampoline.right && kernel.left <= kernel.right
    requires Booted(mem, b) && InImage(b, kernel)
    requires var pages := Pages(regions);
             WindowFits(InitBits(pages, place, info, trampoline, kernel), pages, 0)
    ensures fresh(a) && a.Valid() && a.regions == regions
    ensures var pages := Pages(regions);
            h == null <==> !HasRun(InitBits(pages, place, info, trampoline, kernel), 64)
    ensures h != null ==> fresh(h) && h.Valid() && forall x :: !KernelHeap.InUse(x, h.Now())
    ensures h != null ==> h.pt.root == b.l4 && WindowShown(h.pt.mem, b.l4)
    ensures h != null ==> forall page :: IsPage(page) && !InWindow(page) ==>
                            Walk(h.pt.mem, b.l4, 0, page) == Walk(mem, b.l4, 0, page)
    ensures h != null ==>
              var pages, tables := Pages(regions), Tables(h.pt.mem, b.l4);
              && OnBitmap(a, h.pt, BootRanges(place, |pages|, info, trampoline, kernel))
              && (forall i :: 0 <= i < |pages| ==>
                    (a.Bits()[i] <==>
                       InitKeeps(pages[i], place, |pages|, info, trampoline, kernel) || pages[i] / PAGE in tables))
              && h.booked == KeptFrames(pages, place, info, trampoline, kernel) - tables
              && h.ph.usable == UsableFrames(pages) + tables
  {
    hide BitsOf, Aligned, Sorted, Pages, FreeFrames, Accounts, Tables, Tree, Covered, TableAt, EntryAt, Slot, Walk;
    hide HasRun, WindowFits, WindowTables, WindowShown, BitsBooked, InitBits, Booted, InImage, HeapInv;
    hide KernelHeap.KernelHeap.Valid, KernelHeap.NothingYet, KernelHeap.InUse, InitKeeps, Booked;
    ghost var pages := Pages(regions);
    ghost var ranges := BootRanges(place, |pages|, info, trampoline, kernel);
    PagesFrom(regions, 0);
    a := new Allocator(regions, place, info, trampoline, kernel);
    InitBitsIs(a.Bits(), pages, place, info, trampoline, kernel);
    KeptIsBooked(pages, place, info, trampoline, kernel);
    assert kernel in ranges;
    ImageAccounts(a.Bits(), pages, ranges, kernel, b, mem);
    BootCovered(mem, b);
    BootTree(mem, b, {});
    var pt := new PageTable(b.l4, mem, FreeOf(a));
    var ok := TakeWindow(a, pt, ranges);
    if !ok {
      return a, null;
    }
    ghost var base :| WindowTables(mem, pt.mem, b.l4, base, 64);
    NothingAboveWindow(mem, pt.mem, b.l4, base);
    BootInv(pt.mem, b.l4, a.Bits(), pages, ranges);
    BitsAtEnd(a.Bits(), pages, place, info, trampoline, kernel, Tables(pt.mem, b.l4));
    h := new KernelHeap.KernelHeap(pt, BookedFrames(pages, ranges) - Tables(pt.mem, b.l4),
                                   UsableFrames(pages) + Tables(pt.mem, b.l4));
  }

  lemma RunOfOne(bits: seq<bool>, c: nat)
    requires bits != [] && c < |bits| && FreeRun(bits, c, 1)
    ensures !bits[c]
  {
    AtRound(bits, c);
    assert !At(bits, c);
  }
}
