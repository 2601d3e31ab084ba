/** Whole runs of the kernel heap, src/high/memory/heap.cpp:33-51: what is held is what was given and not
    yet returned, whichever allocators have served it. */
module HeapRuns {
  import opened Common
  import opened KernelHeap
  import opened PageTables
  import BTreeModel
  import SlabAllocator

  // A request, or the return of the k-th block that is held, if there are so many.
  datatype Op = Ask(size: nat) | GiveBack(k: nat)

  // The sizes that the blocks held after a run were asked for with.
  function Asked(ops: seq<Op>): seq<nat> {
    if ops == [] then []
    else
      var was := Asked(ops[..|ops| - 1]);
      match ops[|ops| - 1]
      case Ask(size) => was + [size]
      case GiveBack(k) => if k < |was| then was[..k] + was[k + 1..] else was
  }

  // The blocks in use are those that were in use at first and those that are held, each held once, known by
  // its address, and of the kind and length that malloc is to give for the size asked.
  ghost predicate Holding(s0: State, s: State, held: seq<nat>, blocks: seq<Block>, sizes: seq<nat>) {
    && |held| == |blocks| == |sizes|
    && (forall i, j :: 0 <= i < j < |blocks| ==> blocks[i] != blocks[j])
    && (forall b :: InUse(b, s) <==> InUse(b, s0) || b in blocks)
    && (forall i :: 0 <= i < |blocks| ==> !InUse(blocks[i], s0) && IsHeld(s, blocks[i], held[i], sizes[i]))
  }

  ghost predicate IsHeld(s: State, b: Block, a: int, size: nat) {
    InUse(b, s) && Start(b, s) == a && Suits(b, Length(b, s), size)
  }

  // Why an operation on heap s fails: a small request, or a return to a full slab page, finds no page; a
  // larger request finds no frames, or no gap.  `mem` and `free` are those at the end.
  ghost predicate Fails(op: Op, s: State, blocks: seq<Block>, mem: Memory, free: set<nat>) {
    match op
    case Ask(size) =>
      if size <= 2047 then SlabAllocator.NoPage(mem, s.root, free) else free == {} || NoGap(s.regions, size)
    case GiveBack(k) => k < |blocks| && blocks[k].OfSlab? && SlabAllocator.NoPage(mem, s.root, free)
  }

  lemma NothingHeld(s: State)
    ensures Holding(s, s, [], [], [])
  {
  }

  lemma StillHeld(s: State, s': State, gained: set<Block>, lost: set<Block>, b: Block, a: int,
      size: nat)
    requires Whole(s) && Changes(s, s', gained, lost) && IsHeld(s, b, a, size) && b !in lost
    ensures IsHeld(s', b, a, size)
  {
    hide Whole, Changes, Start, InUse, Length, Suits;
    StaysInPlace(s, s', gained, lost, b);
  }

  lemma UseAfter(s: State, s': State, gained: set<Block>, lost: set<Block>, b: Block)
    requires Changes(s, s', gained, lost)
    ensures InUse(b, s') <==> b in gained || (InUse(b, s) && b !in lost)
  {
  }

  lemma GivenIs(s: State, s': State, b: Block, a: nat, size: nat)
    requires Gives(s, s', b, a, size) && InUse(b, s') && Suits(b, Length(b, s'), size)
    ensures !InUse(b, s) && Changes(s, s', {b}, {}) && IsHeld(s', b, a, size)
  {
    UseAfter(s, s', {b}, {}, b);
    hide Changes, Start, Length, InUse, Suits;
  }

  lemma {:induction false} HeldMore(s0: State, s: State, s': State, held: seq<nat>, blocks: seq<Block>,
      sizes: seq<nat>, b: Block, a: nat, size: nat)
    requires Whole(s) && Holding(s0, s, held, blocks, sizes)
    requires Gives(s, s', b, a, size) && InUse(b, s') && Suits(b, Length(b, s'), size)
    ensures Holding(s0, s', held + [a], blocks + [b], sizes + [size])
  {
    hide Whole, Changes, InUse, Gives, IsHeld;
    GivenIs(s, s', b, a, size);
    UseAfter(s, s', {b}, {}, b);
    forall i | 0 <= i < |blocks|
      ensures IsHeld(s', blocks[i], held[i], sizes[i]) && blocks[i] != b
    {
      assert IsHeld(s, blocks[i], held[i], sizes[i]);
      assert blocks[i] in blocks;
      StillHeld(s, s', {b}, {}, blocks[i], held[i], sizes[i]);
    }
    forall b'
      ensures InUse(b', s') <==> InUse(b', s0) || b' in blocks + [b]
    {
      UseAfter(s, s', {b}, {}, b');
      assert InUse(b', s) <==> InUse(b', s0) || b' in blocks;
    }
    assert !InUse(b, s0);
  }

  lemma {:induction false} HeldLess(s0: State, s: State, s': State, held: seq<nat>, blocks: seq<Block>,
      sizes: seq<nat>, k: nat)
    requires Whole(s) && Holding(s0, s, held, blocks, sizes) && k < |held| && Changes(s, s', {}, {blocks[k]})
    ensures Holding(s0, s', held[..k] + held[k + 1..], blocks[..k] + blocks[k + 1..], sizes[..k] + sizes[k + 1..])
  {
    hide Whole, Changes, InUse, IsHeld;
    AllBut(blocks, k);
    var blocks', held' := blocks[..k] + blocks[k + 1..], held[..k] + held[k + 1..];
    var sizes' := sizes[..k] + sizes[k + 1..];
    forall i | 0 <= i < |blocks'|
      ensures IsHeld(s', blocks'[i], held'[i], sizes'[i]) && !InUse(blocks'[i], s0)
    {
      var j := if i < k then i else i + 1;
      assert IsHeld(s, blocks[j], held[j], sizes[j]);
      assert blocks'[i] == blocks[j] && held'[i] == held[j] && sizes'[i] == sizes[j];
      assert blocks'[i] in blocks';
      StillHeld(s, s', {}, {blocks[k]}, blocks[j], held[j], sizes[j]);
    }
    forall b
      ensures InUse(b, s') <==> InUse(b, s0) || b in blocks'
    {
      UseAfter(s, s', {}, {blocks[k]}, b);
      assert InUse(b, s) <==> InUse(b, s0) || b in blocks;
    }
  }

  lemma AllBut(blocks: seq<Block>, k: nat)
    requires k < |blocks| && forall i, j :: 0 <= i < j < |blocks| ==> blocks[i] != blocks[j]
    ensures var rest := blocks[..k] + blocks[k + 1..];
            && |rest| == |blocks| - 1
            && (forall i :: 0 <= i < |rest| ==> rest[i] == blocks[if i < k then i else i + 1])
            && (forall i, j :: 0 <= i < j < |rest| ==> rest[i] != rest[j])
            && (forall b :: b in rest <==> b in blocks && b != blocks[k])
  {
    var rest := blocks[..k] + blocks[k + 1..];
    forall b
      ensures b in rest <==> b in blocks && b != blocks[k]
    {
      if b in blocks && b != blocks[k] {
        var i :| 0 <= i < |blocks| && blocks[i] == b;
        assert rest[if i < k then i else i - 1] == b;
      }
    }
  }

  lemma HeldIsNamed(s0: State, s: State, held: seq<nat>, blocks: seq<Block>, sizes: seq<nat>, k: nat)
    requires Whole(s) && Holding(s0, s, held, blocks, sizes) && k < |held|
    ensures InUse(blocks[k], s) && Names(blocks[k], s, held[k]) && Route(held[k]) != NoAllocator
  {
    assert IsHeld(s, blocks[k], held[k], sizes[k]);
    hide Holding;
    if !blocks[k].OfRegion? {
      NotEmpty(s, blocks[k]);
    }
    NamesRoute(s, blocks[k], held[k]);
  }

  lemma NotEmpty(s: State, b: Block)
    requires InUse(b, s) && !b.OfRegion?
    ensures Length(b, s) > 0
  {
  }

  // Over any run, no block is given out twice before it is returned, every block stays at its address and
  // suits the size asked, and all that the heap keeps is kept.  The run ends early only where an
  // operation fails, for the reason given; up to there, in state s, the same holds.
  method Serve(h: KernelHeap, ops: seq<Op>)
    returns (done: nat, held: seq<nat>, ghost blocks: seq<Block>, ghost s: State)
    requires h.Valid()
    modifies h.slab, h.pt, h.ph, h.large.regions, h.large.regions.Nodes()
    ensures forall r :: r in h.large.regions.Nodes() && r !in old(h.large.regions.Nodes()) ==> fresh(r)
    ensures done <= |ops| && Whole(s) && Holding(old(h.Now()), s, held, blocks, Asked(ops[..done]))
    ensures done == |ops| ==> h.Valid() && s == h.Now()
    ensures done < |ops| ==> s.root == h.pt.root && Fails(ops[done], s, blocks, h.pt.mem, h.pt.free)
  {
    hide *;
    held, blocks, done, s := [], [], 0, h.Now();
    NothingHeld(s);
    h.Parts();
    NothingAsked(ops);
    ghost var nodes := BTreeModel.Snap(h.large.regions.Nodes());
    while done < |ops|
      invariant done <= |ops| && h.Valid() && s == h.Now() && Whole(s) && |held| == |blocks|
      invariant Holding(old(h.Now()), s, held, blocks, Asked(ops[..done]))
      invariant forall r :: r in h.large.regions.Nodes() && r !in old(h.large.regions.Nodes()) ==> fresh(r)
    {
      h.Parts();
      nodes := BTreeModel.Snap(h.large.regions.Nodes());
      AskedNext(ops, done, old(h.Now()), s, held, blocks);
      label Before:
      match ops[done] {
        case Ask(size) =>
          var reply;
          ghost var b;
          reply, b := h.Malloc(size);
          forall r | r in h.large.regions.Nodes() && r !in old(h.large.regions.Nodes())
            ensures fresh(r)
          {
            assert r in old@Before(h.large.regions.Nodes()) || fresh@Before(r);
          }
          if reply.Fault? {
            AskFails(size, s, blocks, h.pt.mem, h.pt.free);
            return;
          }
          HeldMore(old(h.Now()), s, h.Now(), held, blocks, Asked(ops[..done]), b, reply.address, size);
          held, blocks := held + [reply.address], blocks + [b];
        case GiveBack(k) =>
          if k < |held| {
            HeldIsNamed(old(h.Now()), s, held, blocks, Asked(ops[..done]), k);
            var ok := h.Free(held[k], blocks[k]);
            if !ok {
              ReturnFails(k, s, blocks, h.pt.mem, h.pt.free);
              return;
            }
            HeldLess(old(h.Now()), s, h.Now(), held, blocks, Asked(ops[..done]), k);
            held, blocks := held[..k] + held[k + 1..], blocks[..k] + blocks[k + 1..];
          }
      }
      h.Parts();
      done, s := done + 1, h.Now();
    }
  }

  lemma NothingAsked(ops: seq<Op>)
    ensures Asked(ops[..0]) == []
  {
  }

  lemma AskedNext(ops: seq<Op>, n: nat, s0: State, s: State, held: seq<nat>, blocks: seq<Block>)
    requires n < |ops| && Holding(s0, s, held, blocks, Asked(ops[..n]))
    ensures |Asked(ops[..n])| == |held|
    ensures Asked(ops[..n + 1]) ==
            match ops[n]
            case Ask(size) => Asked(ops[..n]) + [size]
            case GiveBack(k) =>
              if k < |held| then Asked(ops[..n])[..k] + Asked(ops[..n])[k + 1..] else Asked(ops[..n])
  {
    hide InUse, IsHeld;
    assert ops[..n + 1][..n] == ops[..n];
  }

  lemma AskFails(size: nat, s: State, blocks: seq<Block>, mem: Memory, free: set<nat>)
    requires size <= 2047 ==> SlabAllocator.NoPage(mem, s.root, free)
    requires size > 2047 ==> free == {} || NoGap(s.regions, size)
    ensures Fails(Ask(size), s, blocks, mem, free)
  {
  }

  lemma ReturnFails(k: nat, s: State, blocks: seq<Block>, mem: Memory, free: set<nat>)
    requires k < |blocks| && blocks[k].OfSlab? && SlabAllocator.NoPage(mem, s.root, free)
    ensures Fails(GiveBack(k), s, blocks, mem, free)
  {
  }
}
