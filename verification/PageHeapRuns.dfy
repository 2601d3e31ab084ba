/** What malloc and free of the page allocator undo, and what their two faulty lines cost:
    src/high/memory/heap.cpp:128-249, and the promise of its test (lines 76-81) that a page that was
    freed is the next one given. */
module PageHeapRuns {
  import opened Common
  import opened PageTables
  import opened Paging
  import opened PageHeap

  // ---------------------------------------------------------------- malloc, then free

  // A page is taken and given back.
  ghost predicate TakenAndFreed(mem0: Memory, mem1: Memory, mem2: Memory, root: nat, free0: set<nat>,
      free1: set<nat>, free2: set<nat>, elsewhere: set<nat>, usable: set<nat>, page: seq<nat>) {
    && HeapInv(mem0, root, free0, elsewhere, usable) && HeapInv(mem2, root, free2, elsewhere, usable)
    && Indexed(mem0, root) && Indexed(mem2, root) && IsPage(page) && InHeap(page)
    && Taken(mem0, mem1, root, free0, free1, page) && Freed(mem1, mem2, root, free1, free2, [], page)
  }

  lemma {:induction false} OffPathBack(mem0: Memory, mem1: Memory, mem2: Memory, root: nat, page: seq<nat>, q: seq<nat>)
    requires OnlyTowards(mem0, mem1, root, [], page) && OnlyTowards(mem1, mem2, root, [], page)
    requires 0 < |q| <= 4 && !(q <= page)
    ensures Slot(mem2, root, q) == Slot(mem0, root, q)
  {
    hide Slot;
  }

  // What a table that is left on the way is there for.
  lemma PrunedChild(mem: Memory, root: nat, page: seq<nat>, q: seq<nat>) returns (i: nat)
    requires Pruned(mem, root, [], page) && [] < q < page && Slot(mem, root, q).Some?
    ensures i < 512 && Slot(mem, root, q + [i]).Some?
  {
    hide Slot;
    i :| 0 <= i < 512 && Slot(mem, root, q + [i]).Some?;
  }

  lemma BothGrown(mem0: Memory, mem1: Memory, mem2: Memory, root: nat, q: seq<nat>)
    requires Grown(mem0, mem1, root) && Grown(mem2, mem1, root) && 0 < |q| <= 4
    requires Slot(mem0, root, q).Some? && Slot(mem2, root, q).Some?
    ensures Slot(mem2, root, q).value.frame == Slot(mem0, root, q).value.frame
    ensures SameButFull(Slot(mem2, root, q).value, Slot(mem0, root, q).value)
  {
    hide Slot;
  }

  lemma ChildPath(page: seq<nat>, d: nat, i: nat)
    requires d < |page| && page[..d] + [i] <= page
    ensures page[..d] + [i] == page[..d + 1]
  {
  }

  // Entries left on the way to the page were there before.
  lemma {:induction false} BackWithin(mem0: Memory, mem1: Memory, mem2: Memory, root: nat, page: seq<nat>, d: nat)
    requires 0 < d <= |page| == 4 && Slot(mem2, root, page).None?
    requires OnlyTowards(mem0, mem1, root, [], page) && OnlyTowards(mem1, mem2, root, [], page)
    requires Grown(mem0, mem1, root) && Grown(mem2, mem1, root) && Pruned(mem2, root, [], page)
    ensures Slot(mem2, root, page[..d]).Some? ==>
              && Slot(mem0, root, page[..d]).Some?
              && Slot(mem2, root, page[..d]).value.frame == Slot(mem0, root, page[..d]).value.frame
              && SameButFull(Slot(mem2, root, page[..d]).value, Slot(mem0, root, page[..d]).value)
    decreases 4 - d
  {
    hide Slot, OnlyTowards, Grown, Pruned;
    var q := page[..d];
    if d == 4 {
      assert q == page;
    } else if Slot(mem2, root, q).Some? {
      var i := PrunedChild(mem2, root, page, q);
      if q + [i] <= page {
        ChildPath(page, d, i);
        BackWithin(mem0, mem1, mem2, root, page, d + 1);
      } else {
        OffPathBack(mem0, mem1, mem2, root, page, q + [i]);
      }
      SlotAbove(mem0, root, q + [i]);
      assert (q + [i])[..|q + [i]| - 1] == q;
      BothGrown(mem0, mem1, mem2, root, q);
    }
  }

  // If no empty table was on the way, all of them are there again, full bits and all.
  lemma {:induction false} BackAgain(mem0: Memory, mem1: Memory, mem2: Memory, root: nat, page: seq<nat>, d: nat)
    requires 0 < d <= |page| == 4 && Slot(mem0, root, page).None? && Slot(mem2, root, page).None?
    requires OnlyTowards(mem0, mem1, root, [], page) && OnlyTowards(mem1, mem2, root, [], page)
    requires Grown(mem0, mem1, root) && Grown(mem2, mem1, root)
    requires Pruned(mem0, root, [], page) && Pruned(mem2, root, [], page)
    requires Indexed(mem0, root) && Indexed(mem2, root) && InHeap(page)
    ensures Slot(mem2, root, page[..d]) == Slot(mem0, root, page[..d])
    decreases 4 - d
  {
    hide Slot, OnlyTowards, Grown, Pruned, IndexedBut;
    var q := page[..d];
    if d == 4 {
      assert q == page;
    } else {
      forall i | 0 <= i < 512
        ensures Slot(mem2, root, q + [i]) == Slot(mem0, root, q + [i])
      {
        if q + [i] <= page {
          ChildPath(page, d, i);
          BackAgain(mem0, mem1, mem2, root, page, d + 1);
        } else {
          OffPathBack(mem0, mem1, mem2, root, page, q + [i]);
        }
      }
      BackWithin(mem0, mem1, mem2, root, page, d);
      assert q[0] == page[0];
      SameFull(mem0, mem2, root, q);
      if Slot(mem0, root, q).Some? {
        var i := PrunedChild(mem0, root, page, q);
        SlotAbove(mem2, root, q + [i]);
        assert (q + [i])[..|q + [i]| - 1] == q;
      }
    }
  }

  // Full bits are determined by what is below.
  lemma SameFull(mem0: Memory, mem2: Memory, root: nat, q: seq<nat>)
    requires Indexed(mem0, root) && Indexed(mem2, root) && 0 < |q| <= 3 && InHeap(q)
    requires forall i :: 0 <= i < 512 ==> Slot(mem2, root, q + [i]) == Slot(mem0, root, q + [i])
    ensures Slot(mem0, root, q).Some? && Slot(mem2, root, q).Some? ==>
              Slot(mem2, root, q).value.full == Slot(mem0, root, q).value.full
  {
    hide Slot;
    assert Truthful(mem0, root, q) && Truthful(mem2, root, q);
  }

  lemma {:induction false} OwnedBack(mem0: Memory, mem1: Memory, mem2: Memory, root: nat, page: seq<nat>, p: seq<nat>)
    requires |page| == 4 && Slot(mem2, root, page).None?
    requires OnlyTowards(mem0, mem1, root, [], page) && OnlyTowards(mem1, mem2, root, [], page)
    requires Grown(mem0, mem1, root) && Grown(mem2, mem1, root) && Pruned(mem2, root, [], page)
    ensures OwnedAt(mem2, root, p).Some? ==> OwnedAt(mem0, root, p) == OwnedAt(mem2, root, p)
  {
    hide Slot, Grown, OnlyTowards, Pruned;
    if 0 < |p| <= 4 {
      if p <= page {
        assert p == page[..|p|];
        BackWithin(mem0, mem1, mem2, root, page, |p|);
      } else {
        OffPathBack(mem0, mem1, mem2, root, page, p);
      }
    }
  }

  // Malloc and free of a page leave every page mapped as before and lose no frame.  They gain one
  // exactly if an empty table was on the way, left there by a malloc that ran out of frames.
  lemma {:induction false} FreeUndoesMalloc(mem0: Memory, mem1: Memory, mem2: Memory, root: nat, free0: set<nat>,
      free1: set<nat>, free2: set<nat>, elsewhere: set<nat>, usable: set<nat>, page: seq<nat>)
    requires TakenAndFreed(mem0, mem1, mem2, root, free0, free1, free2, elsewhere, usable, page)
    ensures AllKept(mem0, mem2, root) && free0 <= free2
    ensures free2 == free0 <==> Pruned(mem0, root, [], page)
  {
    HeapWalk(mem0, root, page);
    HeapWalk(mem2, root, page);
    hide Walk, Slot, Tree, Covered, Granted, OwnedAt, Indexed;
    forall p
      ensures OwnedAt(mem2, root, p).Some? ==> OwnedAt(mem0, root, p) == OwnedAt(mem2, root, p)
    {
      OwnedBack(mem0, mem1, mem2, root, page, p);
    }
    NoneLost(mem0, mem2, root, free0, free2, elsewhere, usable);
    if Pruned(mem0, root, [], page) {
      forall p
        ensures OwnedAt(mem0, root, p).Some? ==> OwnedAt(mem0, root, p) == OwnedAt(mem2, root, p)
      {
        OwnedAgain(mem0, mem1, mem2, root, page, p);
      }
      NoneLost(mem2, mem0, root, free2, free0, elsewhere, usable);
    } else {
      var q :| [] < q < page && Slot(mem0, root, q).Some? && EmptyBelow(mem0, root, q);
      EmptyGone(mem0, mem1, mem2, root, page, q);
      TableGained(mem0, mem2, root, free0, free2, elsewhere, usable, q);
    }
  }

  lemma {:induction false} NoneLost(mem: Memory, mem': Memory, root: nat, free: set<nat>, free': set<nat>,
      elsewhere: set<nat>, usable: set<nat>)
    requires Conserved(mem, root, free, elsewhere, usable) && Conserved(mem', root, free', elsewhere, usable)
    requires forall p :: OwnedAt(mem', root, p).Some? ==> OwnedAt(mem, root, p) == OwnedAt(mem', root, p)
    ensures free <= free'
  {
    hide OwnedAt;
    OwnedThen(mem, mem', root);
    forall f | f in free
      ensures f in free'
    {
      assert f in usable;
    }
  }

  lemma OwnedThen(mem: Memory, mem': Memory, root: nat)
    requires forall p :: OwnedAt(mem', root, p).Some? ==> OwnedAt(mem, root, p) == OwnedAt(mem', root, p)
    ensures forall f: nat :: Owned(mem', root, f) ==> Owned(mem, root, f)
  {
    hide OwnedAt;
    forall f: nat | Owned(mem', root, f)
      ensures Owned(mem, root, f)
    {
      var p :| OwnedAt(mem', root, p) == Some(f);
      assert OwnedAt(mem, root, p) == Some(f);
    }
  }

  lemma {:induction false} OwnedAgain(mem0: Memory, mem1: Memory, mem2: Memory, root: nat, page: seq<nat>, p: seq<nat>)
    requires |page| == 4 && Slot(mem0, root, page).None? && Slot(mem2, root, page).None?
    requires OnlyTowards(mem0, mem1, root, [], page) && OnlyTowards(mem1, mem2, root, [], page)
    requires Grown(mem0, mem1, root) && Grown(mem2, mem1, root)
    requires Pruned(mem0, root, [], page) && Pruned(mem2, root, [], page)
    requires Indexed(mem0, root) && Indexed(mem2, root) && InHeap(page)
    ensures OwnedAt(mem2, root, p) == OwnedAt(mem0, root, p)
    ensures 0 < |p| <= 4 ==> Slot(mem2, root, p) == Slot(mem0, root, p)
  {
    hide Slot, Grown, OnlyTowards, Pruned, IndexedBut;
    if 0 < |p| <= 4 {
      if p <= page {
        assert p == page[..|p|];
        BackAgain(mem0, mem1, mem2, root, page, |p|);
      } else {
        OffPathBack(mem0, mem1, mem2, root, page, p);
      }
    }
  }

  // An empty table on the way is given up.
  lemma {:induction false} EmptyGone(mem0: Memory, mem1: Memory, mem2: Memory, root: nat, page: seq<nat>, q: seq<nat>)
    requires |page| == 4 && Slot(mem2, root, page).None? && [] < q < page
    requires OnlyTowards(mem0, mem1, root, [], page) && OnlyTowards(mem1, mem2, root, [], page)
    requires Grown(mem0, mem1, root) && Grown(mem2, mem1, root) && Pruned(mem2, root, [], page)
    requires EmptyBelow(mem0, root, q)
    ensures Slot(mem2, root, q).None?
  {
    hide Slot, Grown, OnlyTowards;
    forall i | 0 <= i < 512
      ensures Slot(mem2, root, q + [i]).None?
    {
      if q + [i] <= page {
        assert q + [i] == page[..|q| + 1];
        BackWithin(mem0, mem1, mem2, root, page, |q| + 1);
      } else {
        OffPathBack(mem0, mem1, mem2, root, page, q + [i]);
      }
    }
  }

  lemma {:induction false} TableGained(mem: Memory, mem': Memory, root: nat, free: set<nat>, free': set<nat>,
      elsewhere: set<nat>, usable: set<nat>, q: seq<nat>)
    requires Conserved(mem, root, free, elsewhere, usable) && Conserved(mem', root, free', elsewhere, usable)
    requires forall p :: OwnedAt(mem', root, p).Some? ==> OwnedAt(mem, root, p) == OwnedAt(mem', root, p)
    requires Granted(mem, root) && 0 < |q| <= 3 && InHeap(q) && Slot(mem, root, q).Some? && Slot(mem', root, q).None?
    ensures free' != free
  {
    GrantedAt(mem, root, q);
    var f := Slot(mem, root, q).value.frame;
    assert OwnedAt(mem, root, q) == Some(f) && OwnedAt(mem', root, q).None?;
    hide OwnedAt, Slot;
    assert Owned(mem, root, f);
    assert forall p :: OwnedAt(mem', root, p) != Some(f);
  }

  // ---------------------------------------------------------------- the same page again

  lemma ChosenOnce(mem: Memory, root: nat, path: seq<nat>, i: nat, j: nat, low: nat, high: nat)
    requires Chosen(mem, root, path, i, low, high) && Chosen(mem, root, path, j, low, high)
    ensures i == j
  {
    hide Slot;
  }

  // The search has one result.
  lemma {:induction false} FirstFitOnce(mem: Memory, root: nat, page: seq<nat>, other: seq<nat>, d: nat, low: nat,
      high: nat)
    requires |page| == |other| == 4 && d <= 4
    requires FirstFit(mem, root, page, 0, low, high) && FirstFit(mem, root, other, 0, low, high)
    ensures page[..d] == other[..d]
  {
    hide Chosen;
    if d > 0 {
      FirstFitOnce(mem, root, page, other, d - 1, low, high);
      var path := page[..d - 1];
      var l, h := if d == 1 then low else 0, if d == 1 then high else 512;
      assert Chosen(mem, root, page[..d - 1], page[d - 1], l, h);
      assert Chosen(mem, root, other[..d - 1], other[d - 1], l, h);
      ChosenOnce(mem, root, path, page[d - 1], other[d - 1], l, h);
      assert page[..d] == path + [page[d - 1]] && other[..d] == path + [other[d - 1]];
    }
  }

  lemma {:induction false} FirstFitSame(mem0: Memory, mem2: Memory, root: nat, page: seq<nat>, low: nat, high: nat)
    requires forall p :: 0 < |p| <= 4 ==> Slot(mem2, root, p) == Slot(mem0, root, p)
    requires |page| == 4 && FirstFit(mem0, root, page, 0, low, high)
    ensures FirstFit(mem2, root, page, 0, low, high)
  {
    hide Slot, Chosen;
    forall d | 0 <= d < 4
      ensures Chosen(mem2, root, page[..d], page[d], if d == 0 then low else 0, if d == 0 then high else 512)
    {
      var l, h := if d == 0 then low else 0, if d == 0 then high else 512;
      assert Chosen(mem0, root, page[..d], page[d], l, h);
      assert forall k: nat :: |page[..d] + [k]| == d + 1;
      SameChosen(mem0, mem2, root, page[..d], page[d], l, h);
    }
  }

  lemma SameChosen(mem0: Memory, mem2: Memory, root: nat, path: seq<nat>, i: nat, low: nat, high: nat)
    requires forall k: nat :: Slot(mem2, root, path + [k]) == Slot(mem0, root, path + [k])
    requires Chosen(mem0, root, path, i, low, high)
    ensures Chosen(mem2, root, path, i, low, high)
  {
    hide Slot;
  }

  // After malloc and free of a page the next malloc gives that page, if no empty table was on the way.
  lemma {:induction false} SamePageAgain(mem0: Memory, mem1: Memory, mem2: Memory, root: nat, free0: set<nat>,
      free1: set<nat>, free2: set<nat>, elsewhere: set<nat>, usable: set<nat>, page: seq<nat>, next: seq<nat>,
      low: nat, high: nat)
    requires TakenAndFreed(mem0, mem1, mem2, root, free0, free1, free2, elsewhere, usable, page)
    requires Pruned(mem0, root, [], page)
    requires FirstFit(mem0, root, page, 0, low, high)
    requires |next| == 4 && FirstFit(mem2, root, next, 0, low, high)
    ensures next == page
  {
    hide HeapInv, Slot, Walk, FirstFit;
    forall p | 0 < |p| <= 4
      ensures Slot(mem2, root, p) == Slot(mem0, root, p)
    {
      OwnedAgain(mem0, mem1, mem2, root, page, p);
    }
    FirstFitSame(mem0, mem2, root, page, low, high);
    FirstFitOnce(mem2, root, page, next, 4, low, high);
    assert page[..4] == page && next[..4] == next;
  }

  // ---------------------------------------------------------------- whole runs

  // A request, or the return of the k-th page that is held, if there are so many.
  datatype Op = Ask(size: nat) | GiveBack(k: nat)

  // The mapped heap pages are those that were mapped at first and those that are held, each held once.
  ghost predicate Holding(mem0: Memory, mem: Memory, root: nat, held: seq<seq<nat>>) {
    && (forall i :: 0 <= i < |held| ==> IsPage(held[i]) && InHeap(held[i]))
    && (forall i, j :: 0 <= i < j < |held| ==> held[i] != held[j])
    && (forall page :: IsPage(page) && InHeap(page) ==>
          (Slot(mem, root, page).Some? <==> Slot(mem0, root, page).Some? || page in held))
    && (forall i :: 0 <= i < |held| ==> Slot(mem0, root, held[i]).None?)
  }

  lemma HeldMore(mem0: Memory, mem: Memory, mem': Memory, root: nat, free: set<nat>, free': set<nat>,
      held: seq<seq<nat>>, page: seq<nat>)
    requires Holding(mem0, mem, root, held) && Taken(mem, mem', root, free, free', page)
    requires HEAP_LOW <= page[0] < HEAP_HIGH
    ensures Holding(mem0, mem', root, held + [page])
  {
    hide Slot, Walk;
    forall q | |q| == 4 && q != page
      ensures Slot(mem', root, q) == Slot(mem, root, q)
    {
      SameOrLonger(q, page);
    }
    hide Taken;
  }

  lemma HeldSame(mem0: Memory, mem: Memory, mem': Memory, root: nat, held: seq<seq<nat>>)
    requires Holding(mem0, mem, root, held)
    requires Covered(mem, root) && Granted(mem, root) && Covered(mem', root) && Granted(mem', root)
    requires AllKept(mem, mem', root)
    ensures Holding(mem0, mem', root, held)
  {
    forall q | IsPage(q) && InHeap(q)
      ensures Slot(mem', root, q).Some? <==> Slot(mem, root, q).Some?
    {
      HeapWalk(mem, root, q);
      HeapWalk(mem', root, q);
    }
    hide Slot, Walk, Covered, Granted;
  }

  lemma HeldLess(mem0: Memory, mem: Memory, mem': Memory, root: nat, free: set<nat>, free': set<nat>,
      held: seq<seq<nat>>, k: nat)
    requires k < |held| && Holding(mem0, mem, root, held) && Freed(mem, mem', root, free, free', [], held[k])
    ensures Holding(mem0, mem', root, held[..k] + held[k + 1..])
  {
    hide Slot, Walk;
    var page, rest := held[k], held[..k] + held[k + 1..];
    forall q | |q| == 4 && q != page
      ensures Slot(mem', root, q) == Slot(mem, root, q)
    {
      SameOrLonger(q, page);
    }
    assert Slot(mem', root, page).None?;
    hide Freed, OnlyTowards, OthersKept, Grown, Pruned;
    AllBut(held, k);
  }

  lemma AllBut(held: seq<seq<nat>>, k: nat)
    requires k < |held| && forall i, j :: 0 <= i < j < |held| ==> held[i] != held[j]
    ensures var rest := held[..k] + held[k + 1..];
            && |rest| == |held| - 1
            && (forall i :: 0 <= i < |rest| ==> rest[i] == held[if i < k then i else i + 1])
            && (forall i, j :: 0 <= i < j < |rest| ==> rest[i] != rest[j])
            && (forall q :: q in rest <==> q in held && q != held[k])
  {
    var rest := held[..k] + held[k + 1..];
    forall q
      ensures q in rest <==> q in held && q != held[k]
    {
      if q in held && q != held[k] {
        var i :| 0 <= i < |held| && held[i] == q;
        assert rest[if i < k then i else i - 1] == q;
      }
    }
  }

  // Over any run, no page is given out twice before it is returned, and pages that were mapped before the
  // run are left alone.
  method Serve(h: PageHeap, ops: seq<Op>) returns (held: seq<seq<nat>>)
    requires h.Valid()
    modifies h.pt
    ensures h.Valid() && Holding(old(h.pt.mem), h.pt.mem, h.pt.root, held)
  {
    hide HeapInv, Slot, Walk, IndexedBut, Holding, Taken, Freed, AllKept, FirstFit, Exhausted;
    held := [];
    NothingHeld(h.pt.mem, h.pt.root);
    var n := 0;
    while n < |ops|
      invariant n <= |ops| && h.Valid() && Holding(old(h.pt.mem), h.pt.mem, h.pt.root, held)
    {
      ghost var mem, free := h.pt.mem, h.pt.free;
      match ops[n] {
        case Ask(size) =>
          UnfoldInv(h.pt.mem, h.pt.root, h.pt.free, h.elsewhere, h.usable);
          var page := h.Malloc(size);
          if page.Some? {
            HeldMore(old(h.pt.mem), mem, h.pt.mem, h.pt.root, free, h.pt.free, held, page.value);
            held := held + [page.value];
          } else if size <= PAGE {
            UnfoldInv(h.pt.mem, h.pt.root, h.pt.free, h.elsewhere, h.usable);
            HeldSame(old(h.pt.mem), mem, h.pt.mem, h.pt.root, held);
          }
        case GiveBack(k) =>
          if k < |held| {
            HeldLive(old(h.pt.mem), h.pt.mem, h.pt.root, held, k);
            h.Free(Some(held[k]));
            HeldLess(old(h.pt.mem), mem, h.pt.mem, h.pt.root, free, h.pt.free, held, k);
            held := held[..k] + held[k + 1..];
          }
      }
      n := n + 1;
    }
  }

  lemma NothingHeld(mem: Memory, root: nat)
    ensures Holding(mem, mem, root, [])
  {
  }

  lemma HeldLive(mem0: Memory, mem: Memory, root: nat, held: seq<seq<nat>>, k: nat)
    requires Holding(mem0, mem, root, held) && k < |held|
    ensures IsPage(held[k]) && InHeap(held[k]) && Slot(mem, root, held[k]).Some?
  {
  }

  // ---------------------------------------------------------------- as written

  // Lines 221-222 and 241-242: the cleared entry names frame 0, so that the frame that is freed is
  // frame 0.  The frames are still conserved exactly if that is the frame the entry had.
  lemma {:induction false} ClearedFirstIff(mem: Memory, root: nat, free: set<nat>, elsewhere: set<nat>,
      usable: set<nat>, t: nat, path: seq<nat>, i: nat)
    requires HeapInv(mem, root, free, elsewhere, usable) && Place(mem, root, free, t, path, i)
    requires InHeap(path + [i]) && Slot(mem, root, path + [i]).Some?
    requires |path| < 3 ==> EmptyBelow(mem, root, path + [i])
    ensures t in mem && i < |mem[t]|
    ensures Conserved(SetEntry(mem, t, i, ZERO), root, free + {ZERO.frame}, elsewhere, usable) <==>
            mem[t][i].frame == 0
  {
    PlaceSlot(mem, root, free, t, path, i);
    GrantedAt(mem, root, path + [i]);
    ClearStep(mem, root, free, elsewhere, usable, t, path, i);
    var c, g, mem' := path + [i], mem[t][i].frame, SetEntry(mem, t, i, ZERO);
    assert OwnedAt(mem, root, c) == Some(g) && OwnedAt(mem', root, c).None?;
    OwnedElsewhere(mem, mem', root, c);
    hide Tree, Covered, Granted, Slot, OwnedAt, OneChange, OthersKept;
    assert Owned(mem, root, g);
    assert forall p :: OwnedAt(mem', root, p) != Some(g);
  }

  // Lines 150-164: a new table is used with whatever its frame held.  The heap is then as good as before
  // exactly if nothing there looks like a table or a page, large ones included, and no absent entry of an
  // upper table has rights or a size left.
  lemma {:induction false} UnclearedIff(mem: Memory, root: nat, free: set<nat>, elsewhere: set<nat>, usable: set<nat>,
      t: nat, path: seq<nat>, i: nat, g: nat, stale: seq<Entry>)
    requires HeapInv(mem, root, free, elsewhere, usable) && Indexed(mem, root)
    requires Place(mem, root, free, t, path, i) && |path| < 3
    requires InHeap(path + [i]) && Slot(mem, root, path + [i]).None? && g in free && |stale| == 512
    ensures t in mem && i < |mem[t]| && g != t
    ensures var mem' := LinkNew(mem, t, i, NewEntry(g), stale);
            HeapInv(mem', root, free - {g}, elsewhere, usable) && Indexed(mem', root) <==>
            forall j :: 0 <= j < 512 ==> Harmless(stale[j], |path| + 1)
  {
    PlaceSlot(mem, root, free, t, path, i);
    TableInMemory(mem, root, free, path);
    if j :| 0 <= j < 512 && !Harmless(stale[j], |path| + 1) {
      StaleHarms(mem, root, free, elsewhere, usable, t, path, i, g, stale, j);
    } else {
      hide Tree, Covered, Granted, Conserved, TableAt, EntryAt, Slot;
      LinkStep(mem, root, free, t, path, i, g, stale);
      var mem' := LinkNew(mem, t, i, NewEntry(g), stale);
      RightsStep(mem, mem', root, path + [i]);
      OwnMore(mem, mem', root, free, elsewhere, usable, path + [i], g);
      NewIndexed(mem, mem', root, path + [i]);
    }
  }

  lemma {:induction false} StaleHarms(mem: Memory, root: nat, free: set<nat>, elsewhere: set<nat>, usable: set<nat>,
      t: nat, path: seq<nat>, i: nat, g: nat, stale: seq<Entry>, j: nat)
    requires HeapInv(mem, root, free, elsewhere, usable) && Place(mem, root, free, t, path, i) && |path| < 3
    requires InHeap(path + [i]) && Slot(mem, root, path + [i]).None? && g in free && |stale| == 512
    requires j < 512 && !Harmless(stale[j], |path| + 1)
    ensures t in mem && i < |mem[t]| && g != t
    ensures !HeapInv(LinkNew(mem, t, i, NewEntry(g), stale), root, free - {g}, elsewhere, usable)
  {
    PlaceSlot(mem, root, free, t, path, i);
    TableInMemory(mem, root, free, path);
    var c, mem' := path + [i], LinkNew(mem, t, i, NewEntry(g), stale);
    var x := c + [j];
    StaleLink(mem, root, free, t, path, i, g, stale);
    assert x[..|c|] == c && x[0] == c[0] && c != x;
    if Leads(stale[j], |c|) {
      StaleOwned(mem, mem', root, c, g, stale, j);
      hide Slot, OwnedAt, Tree, Covered, Granted;
      TwiceOwned(mem, mem', root, free, elsewhere, usable, c, x, g);
    } else {
      assert EntryAt(mem', root, x) == Some(stale[j]);
      assert stale[j].present ==> Slot(mem', root, x) == Some(stale[j]);
    }
  }

  // A path that owns a frame more than before, apart from the one that has taken a free frame: some frame
  // is then in two places, or is none of the usable ones.
  lemma TwiceOwned(mem: Memory, mem': Memory, root: nat, free: set<nat>, elsewhere: set<nat>, usable: set<nat>,
      c: seq<nat>, x: seq<nat>, g: nat)
    requires Conserved(mem, root, free, elsewhere, usable) && g in free && c != x
    requires OwnedAt(mem', root, x).Some? && OwnedAt(mem', root, c) == Some(g)
    requires forall p :: OwnedAt(mem, root, p).Some? ==> OwnedAt(mem', root, p) == OwnedAt(mem, root, p) && p != x
    ensures !Conserved(mem', root, free - {g}, elsewhere, usable)
  {
    hide OwnedAt;
    var f := OwnedAt(mem', root, x).value;
    assert Owned(mem', root, f);
    if Owned(mem, root, f) {
      var p :| OwnedAt(mem, root, p) == Some(f);
      assert OwnedAt(mem', root, p) == Some(f) && p != x;
    }
  }

  // An entry of a table at the given depth of the heap that owns a frame.
  predicate Leads(e: Entry, depth: nat) {
    if depth == 3 then e.present else Links(e, depth)
  }

  lemma {:induction false} StaleLink(mem: Memory, root: nat, free: set<nat>, t: nat, path: seq<nat>, i: nat, g: nat,
      stale: seq<Entry>)
    requires Place(mem, root, free, t, path, i) && |path| < 3 && g in free && |stale| == 512
    requires Slot(mem, root, path + [i]).None?
    ensures t in mem && i < |mem[t]| && g != t
    ensures var c, mem' := path + [i], LinkNew(mem, t, i, NewEntry(g), stale);
            && Slot(mem', root, c) == Some(NewEntry(g))
            && (forall j :: 0 <= j < 512 ==> EntryAt(mem', root, c + [j]) == Some(stale[j]))
            && (forall q :: 0 < |q| <= 4 && Avoids(q, c) ==> Slot(mem', root, q) == Slot(mem, root, q))
            && (forall q :: c < q ==> Slot(mem, root, q).None?)
  {
    PlaceSlot(mem, root, free, t, path, i);
    TableInMemory(mem, root, free, path);
    var c, e := path + [i], NewEntry(g);
    var mem1 := mem[g := stale];
    var mem' := LinkNew(mem, t, i, e, stale);
    ClearedTree(mem, root, free, g, stale);
    ClearFree(mem, root, free, g, stale, path);
    SetHere(mem1, root, free - {g}, path, i, e);
    assert TableAt(mem', root, c) == Some(g);
    forall j | 0 <= j < 512
      ensures EntryAt(mem', root, c + [j]) == Some(stale[j])
    {
      EntryOfTable(mem', root, c, j);
    }
    forall q | 0 < |q| <= 4 && Avoids(q, c)
      ensures Slot(mem', root, q) == Slot(mem, root, q)
    {
      ClearFree(mem, root, free, g, stale, q);
      SetElsewhere(mem1, root, free - {g}, path, i, e, q);
    }
    forall q | c < q
      ensures Slot(mem, root, q).None?
    {
      NoneBelow(mem, root, c, q);
    }
  }

  lemma SameOrLonger(c: seq<nat>, p: seq<nat>)
    ensures c <= p ==> p == c || c < p
  {
    assert c <= p && |p| == |c| ==> p[..|c|] == c;
  }

  lemma StaleOwned(mem: Memory, mem': Memory, root: nat, c: seq<nat>, g: nat, stale: seq<Entry>, j: nat)
    requires 0 < |c| <= 3 && InHeap(c) && |stale| == 512 && j < 512 && Leads(stale[j], |c|)
    requires Slot(mem, root, c).None? && Slot(mem', root, c) == Some(NewEntry(g))
    requires EntryAt(mem', root, c + [j]) == Some(stale[j])
    requires forall q :: 0 < |q| <= 4 && Avoids(q, c) ==> Slot(mem', root, q) == Slot(mem, root, q)
    requires forall q :: c < q ==> Slot(mem, root, q).None?
    ensures OwnedAt(mem', root, c + [j]).Some? && OwnedAt(mem', root, c) == Some(g)
    ensures forall p :: OwnedAt(mem, root, p).Some? ==>
              OwnedAt(mem', root, p) == OwnedAt(mem, root, p) && p != c && p != c + [j]
  {
    hide EntryAt;
    var x := c + [j];
    assert x[0] == c[0] && c < x && Slot(mem', root, x) == Some(stale[j]);
    hide Slot;
    forall p | OwnedAt(mem, root, p).Some?
      ensures OwnedAt(mem', root, p) == OwnedAt(mem, root, p) && p != c && p != x
    {
      SameOrLonger(c, p);
    }
  }
}
