/** A block that is freed and asked for again: what src/high/memory/heap.cpp:82-98 tries once. */
module SlabRuns {
  import opened Common
  import opened FreeLists
  import opened SlabPages
  import opened SlabAllocator

  // Whether the block is the one that malloc comes back to: every block of its page before it is in use, and
  // its page is the one that malloc looks at.  That is the first of its list, or, for a page that was full
  // and gets listed again, a page put before all others.
  ghost predicate ComesBack(slabs: map<nat, Page>, chains: seq<seq<nat>>, nodes: Nodes, p: nat, i: nat)
    requires p in slabs && IsSlab(slabs[p])
  {
    var b := Bucket(slabs[p]);
    && (forall j: nat :: j < i ==> Live(slabs, p, j))
    && (if HasRoom(Bits(slabs[p])) then p == FrontOf(chains, nodes, b) else !FirstIsTaken(chains, nodes, b))
  }

  lemma ClassOf(size: nat, b: nat)
    requires b < BUCKETS && PrefSize(size) == SizeOf(b)
    ensures size <= 2047 && 0 < PrefSize(size) && BucketOf(PrefSize(size)) == b
  {
    ClassFits(size);
  }

  lemma BlockStart(slabs: map<nat, Page>, p: nat, i: nat)
    requires Live(slabs, p, i) && p > 0
    ensures var a := p * PAGE + i * SizeOf(Bucket(slabs[p]));
            && i < Blocks(Bucket(slabs[p])) && a > 0 && a / PAGE == p && BlockAt(slabs, a) == i && LiveAt(slabs, a)
  {
    BlockOfAddress(slabs, p, i, p * PAGE + i * SizeOf(Bucket(slabs[p])));
  }

  lemma BlockStarts(b: nat, p: nat, i: nat, q: nat, j: nat)
    requires b < BUCKETS && i < Blocks(b) && j < Blocks(b)
    ensures p * PAGE + i * SizeOf(b) == q * PAGE + j * SizeOf(b) <==> p == q && i == j
  {
    var page := NewPage(b);
    var slabs: map<nat, Page> := map[p := page][q := page];
    BlockOfAddress(slabs, p, i, p * PAGE + i * SizeOf(b));
    BlockOfAddress(slabs, q, j, q * PAGE + j * SizeOf(b));
  }

  // The lowest free block of the page is the one that was freed exactly if all before it are in use.
  lemma LowestFree(slabs: map<nat, Page>, slabs1: map<nat, Page>, slabs2: map<nat, Page>, p: nat, i: nat, q: nat,
      j: nat)
    requires forall r, k :: Live(slabs1, r, k) <==> Live(slabs, r, k) && !(r == p && k == i)
    requires forall r, k :: Live(slabs2, r, k) <==> Live(slabs1, r, k) || (r == q && k == j)
    requires !Live(slabs1, q, j) && forall k: nat :: k < j ==> Live(slabs2, q, k)
    ensures q == p ==> (j == i <==> forall k: nat :: k < i ==> Live(slabs, p, k))
  {
    hide Live;
    if q == p {
      assert !Live(slabs1, p, i);
      assert j > i ==> Live(slabs2, q, i);
      assert j < i ==> !Live(slabs, p, j);
      forall k: nat | k < j && k < i
        ensures Live(slabs, p, k)
      {
        assert Live(slabs2, q, k);
        assert Live(slabs1, q, k);
      }
    }
  }

  // free of a block, and malloc of a size of its class: the address is the same exactly if the block comes back.
  method ReturnAndAsk(s: SlabAllocator, p: nat, i: nat, size: nat) returns (reply: Reply)
    requires s.Valid() && Live(s.slabs, p, i) && PrefSize(size) == SizeOf(Bucket(s.slabs[p]))
    modifies s, s.ph.pt
    ensures reply.Fault? ==> !HasRoom(Bits(old(s.slabs)[p])) && NoPage(s.ph.pt.mem, s.ph.pt.root, s.ph.pt.free)
    ensures !reply.Refused?
    ensures reply.Given? ==>
              (reply.address == p * PAGE + i * SizeOf(Bucket(old(s.slabs)[p])) <==>
                 old(ComesBack(s.slabs, s.chains, s.nodes, p, i)))
  {
    hide Bits, IsSlab, Bucket, HasRoom, SizeOf, PrefSize, NoPage, Lists, Listed, Shared, NoEmptyNodes, InArena;
    hide AskedFor, AllSlabs, FirstIsTaken, FrontOf, Packed, Undisturbed, BucketOf, Blocks;
    ghost var slabs, chains, nodes := s.slabs, s.chains, s.nodes;
    var b := Bucket(s.slabs[p]);
    var ptr := p * PAGE + i * SizeOf(b);
    ClassOf(size, b);
    InPages(slabs, nodes, s.pages, p);
    BlockStart(slabs, p, i);
    if !HasRoom(Bits(slabs[p])) && FirstIsTaken(chains, nodes, b) {
      FrontHasRoom(s.heads, chains, nodes, slabs, b);
    }
    var ok := s.Free(ptr);
    if !ok {
      return Fault;
    }
    ghost var slabs1, front := s.slabs, FrontOf(s.chains, s.nodes, b);
    ghost var q, j;
    reply, q, j := s.Malloc(size);
    LowestFree(slabs, slabs1, s.slabs, p, i, q, j);
    BlockStarts(b, p, i, q, j);
  }
}
