/** The memory map and the numbering of its pages: src/high/memory/mem.cpp:57-106.

    The usable pages are numbered in the order of the map.  Addresses and sizes are unbounded here; the
    source has 64 bits for them. */
module MemoryMap {
  import opened Common

  // An entry of the memory map; `usable` is type 1.
  datatype Region = Region(base: nat, length: nat, usable: bool)

  function Align(a: nat): (r: nat)
    ensures r % PAGE == 0 && r <= a < r + PAGE
  {
    a / PAGE * PAGE
  }

  // ---------------------------------------------------------------- the two conversions

  // memoryBitmapIndexToPhysical, region by region.
  function AddressOf(rs: seq<Region>, index: nat): Option<nat> {
    if rs == [] then None
    else if !rs[0].usable then AddressOf(rs[1..], index)
    else if index * PAGE < rs[0].length then Some(rs[0].base + index * PAGE)
    else AddressOf(rs[1..], index - rs[0].length / PAGE)
  }

  // physicalAddressPageToMemoryIndex, region by region.
  function IndexOf(rs: seq<Region>, a: nat): Option<nat> {
    if rs == [] then None
    else if !rs[0].usable then IndexOf(rs[1..], a)
    else if rs[0].base <= Align(a) && Align(a) - rs[0].base < rs[0].length then
      Some((Align(a) - rs[0].base) / PAGE)
    else
      match IndexOf(rs[1..], a)
      case None => None
      case Some(i) => Some(rs[0].length / PAGE + i)
  }

  method ToPhysical(rs: seq<Region>, index: nat) returns (address: Option<nat>)
    ensures address == AddressOf(rs, index)
  {
    var left: nat := index;
    var i := 0;
    while i < |rs|
      invariant i <= |rs| && AddressOf(rs[i..], left) == AddressOf(rs, index)
    {
      assert rs[i..][0] == rs[i] && rs[i..][1..] == rs[i + 1..];
      if rs[i].usable {
        if left * PAGE < rs[i].length {
          return Some(rs[i].base + left * PAGE);
        }
        left := left - rs[i].length / PAGE;
      }
      i := i + 1;
    }
    return None;
  }

  method ToIndex(rs: seq<Region>, a: nat) returns (index: Option<nat>)
    ensures index == IndexOf(rs, a)
  {
    var aligned := Align(a);
    var current := 0;
    var i := 0;
    while i < |rs|
      invariant i <= |rs|
      invariant IndexOf(rs, a) ==
                match IndexOf(rs[i..], a)
                case None => None
                case Some(j) => Some(current + j)
    {
      assert rs[i..][0] == rs[i] && rs[i..][1..] == rs[i + 1..];
      if rs[i].usable {
        if aligned >= rs[i].base && aligned - rs[i].base < rs[i].length {
          return Some(current + (aligned - rs[i].base) / PAGE);
        }
        current := current + rs[i].length / PAGE;
      }
      i := i + 1;
    }
    return None;
  }

  // ---------------------------------------------------------------- the pages, in order

  // n pages in a row.
  function Run(base: nat, n: nat): (s: seq<nat>)
    ensures |s| == n && forall i :: 0 <= i < n ==> s[i] == base + i * PAGE
  {
    seq(n, i => base + i * PAGE)
  }

  // The addresses of all usable pages.
  function Pages(rs: seq<Region>): seq<nat> {
    if rs == [] then []
    else if rs[0].usable then Run(rs[0].base, rs[0].length / PAGE) + Pages(rs[1..])
    else Pages(rs[1..])
  }

  ghost predicate Aligned(rs: seq<Region>) {
    forall i :: 0 <= i < |rs| && rs[i].usable ==> rs[i].base % PAGE == 0 && rs[i].length % PAGE == 0
  }

  ghost predicate Sorted(rs: seq<Region>) {
    forall i, j :: 0 <= i < j < |rs| && rs[i].usable && rs[j].usable ==> rs[i].base + rs[i].length <= rs[j].base
  }

  // Usable pages lie on page boundaries and in ascending order.
  ghost predicate Ascending(pages: seq<nat>) {
    && (forall i :: 0 <= i < |pages| ==> pages[i] % PAGE == 0)
    && (forall i, j :: 0 <= i < j < |pages| ==> pages[i] < pages[j])
  }

  lemma {:induction false} PagesFrom(rs: seq<Region>, low: nat)
    requires Aligned(rs) && Sorted(rs) && forall i :: 0 <= i < |rs| && rs[i].usable ==> low <= rs[i].base
    ensures Ascending(Pages(rs)) && forall i :: 0 <= i < |Pages(rs)| ==> low <= Pages(rs)[i]
  {
    if rs != [] {
      if rs[0].usable {
        PagesFrom(rs[1..], rs[0].base + rs[0].length);
      } else {
        PagesFrom(rs[1..], low);
      }
    }
  }

  // An index is turned into the address of the page it counts, and no other index into any.
  lemma {:induction false} AddressIsPage(rs: seq<Region>, index: nat)
    requires Aligned(rs)
    ensures AddressOf(rs, index) == if index < |Pages(rs)| then Some(Pages(rs)[index]) else None
  {
    if rs != [] {
      if !rs[0].usable {
        AddressIsPage(rs[1..], index);
      } else if index >= rs[0].length / PAGE {
        AddressIsPage(rs[1..], index - rs[0].length / PAGE);
      }
    }
  }

  // An address is turned into the number of its page, if that page is usable.
  lemma {:induction false} IndexIsPosition(rs: seq<Region>, a: nat)
    requires Aligned(rs) && Sorted(rs)
    ensures IndexOf(rs, a).Some? ==>
              IndexOf(rs, a).value < |Pages(rs)| && Pages(rs)[IndexOf(rs, a).value] == Align(a)
    ensures IndexOf(rs, a).None? ==> Align(a) !in Pages(rs)
  {
    if rs != [] {
      IndexIsPosition(rs[1..], a);
      if rs[0].usable {
        var n := rs[0].length / PAGE;
        assert rs[0].base % PAGE == 0;
        assert rs[0].base <= Align(a) < rs[0].base + rs[0].length <==> Align(a) in Run(rs[0].base, n) by {
          if rs[0].base <= Align(a) < rs[0].base + rs[0].length {
            assert Run(rs[0].base, n)[(Align(a) - rs[0].base) / PAGE] == Align(a);
          }
        }
      }
    }
  }

  // The conversions are inverse to each other.
  lemma {:induction false} RoundTrips(rs: seq<Region>)
    requires Aligned(rs) && Sorted(rs)
    ensures forall i: nat :: AddressOf(rs, i).Some? ==> IndexOf(rs, AddressOf(rs, i).value) == Some(i)
    ensures forall a :: IndexOf(rs, a).Some? ==> AddressOf(rs, IndexOf(rs, a).value) == Some(Align(a))
  {
    PagesFrom(rs, 0);
    forall i: nat | AddressOf(rs, i).Some?
      ensures IndexOf(rs, AddressOf(rs, i).value) == Some(i)
    {
      AddressIsPage(rs, i);
      IndexIsPosition(rs, AddressOf(rs, i).value);
      assert Pages(rs)[i] == Align(Pages(rs)[i]);
    }
    forall a | IndexOf(rs, a).Some?
      ensures AddressOf(rs, IndexOf(rs, a).value) == Some(Align(a))
    {
      IndexIsPosition(rs, a);
      AddressIsPage(rs, IndexOf(rs, a).value);
    }
  }

  // ---------------------------------------------------------------- lengths that end within a page

  ghost predicate Holds(rs: seq<Region>) {
    exists i :: 0 <= i < |rs| && rs[i].usable && rs[i].length > 0
  }

  // Only the last region that holds anything may end within a page.
  ghost predicate Whole(rs: seq<Region>) {
    rs != [] ==> (rs[0].usable && Holds(rs[1..]) ==> rs[0].length % PAGE == 0) && Whole(rs[1..])
  }

  ghost predicate AddressesReturn(rs: seq<Region>) {
    forall a :: IndexOf(rs, a).Some? ==> AddressOf(rs, IndexOf(rs, a).value) == Some(Align(a))
  }

  ghost predicate BasesAligned(rs: seq<Region>) {
    forall i :: 0 <= i < |rs| && rs[i].usable ==> rs[i].base % PAGE == 0
  }

  // The first page of a map has index 0.
  lemma {:induction false} FirstIndex(rs: seq<Region>) returns (a: nat)
    requires BasesAligned(rs) && Holds(rs)
    ensures a % PAGE == 0 && IndexOf(rs, a) == Some(0)
    ensures exists i :: 0 <= i < |rs| && rs[i].usable && a == rs[i].base
  {
    if rs[0].usable && rs[0].length > 0 {
      a := rs[0].base;
    } else {
      a := FirstIndex(rs[1..]);
      var i :| 0 <= i < |rs[1..]| && rs[1..][i].usable && a == rs[1..][i].base;
      assert rs[i + 1].usable && a == rs[i + 1].base;
    }
  }

  lemma {:induction false} IndexedWithin(rs: seq<Region>, a: nat)
    requires IndexOf(rs, a).Some?
    ensures exists i :: 0 <= i < |rs| && rs[i].usable && rs[i].base <= Align(a) < rs[i].base + rs[i].length
  {
    if !(rs[0].usable && rs[0].base <= Align(a) < rs[0].base + rs[0].length) {
      IndexedWithin(rs[1..], a);
      var i :| 0 <= i < |rs[1..]| && rs[1..][i].usable
               && rs[1..][i].base <= Align(a) < rs[1..][i].base + rs[1..][i].length;
      assert rs[i + 1].usable && rs[i + 1].base <= Align(a) < rs[i + 1].base + rs[i + 1].length;
    }
  }

  lemma {:induction false} NothingHeld(rs: seq<Region>, a: nat)
    requires !Holds(rs)
    ensures IndexOf(rs, a).None?
  {
    if IndexOf(rs, a).Some? {
      IndexedWithin(rs, a);
    }
  }

  lemma {:induction false} TailReturns(rs: seq<Region>)
    requires rs != [] && rs[0].usable && rs[0].base % PAGE == 0 && rs[0].length % PAGE == 0
    requires forall a :: IndexOf(rs[1..], a).Some? ==>
               IndexOf(rs, a) == Some(rs[0].length / PAGE + IndexOf(rs[1..], a).value)
    ensures AddressesReturn(rs) <==> AddressesReturn(rs[1..])
  {
    var n := rs[0].length / PAGE;
    forall a | IndexOf(rs[1..], a).Some?
      ensures AddressOf(rs, IndexOf(rs, a).value) == AddressOf(rs[1..], IndexOf(rs[1..], a).value)
    {
    }
    forall a | IndexOf(rs, a).Some? && IndexOf(rs[1..], a).None?
      ensures AddressOf(rs, IndexOf(rs, a).value) == Some(Align(a))
    {
    }
  }

  // A region that ends within a page: the page behind it gets an index that leads elsewhere.
  lemma AddressGoesAstray()
    ensures var rs := [Region(0, 0x1800, true), Region(0x2000, 0x1000, true)];
            BasesAligned(rs) && Sorted(rs) && IndexOf(rs, 0x2000) == Some(1) && AddressOf(rs, 1) == Some(0x1000)
  {
    var rs := [Region(0, 0x1800, true), Region(0x2000, 0x1000, true)];
    assert rs[1..] == [rs[1]] && [rs[1]][1..] == [];
  }

  // For lengths of any kind, as maps of real machines have them: addresses survive the way to an index
  // and back exactly if no region but the last ends within a page.
  lemma {:induction false} AddressesReturnIff(rs: seq<Region>)
    requires BasesAligned(rs) && Sorted(rs)
    ensures AddressesReturn(rs) <==> Whole(rs)
  {
    if rs != [] {
      var head, tail := rs[0], rs[1..];
      AddressesReturnIff(tail);
      if !head.usable {
        assert forall a :: IndexOf(rs, a) == IndexOf(tail, a);
      } else {
        var n := head.length / PAGE;
        forall a | IndexOf(tail, a).Some?
          ensures IndexOf(rs, a) == Some(n + IndexOf(tail, a).value)
        {
          IndexedWithin(tail, a);
        }
        if head.length % PAGE == 0 {
          TailReturns(rs);
        } else if Holds(tail) {
          var a := FirstIndex(tail);
          assert IndexOf(rs, a) == Some(n);
          assert AddressOf(rs, n) == Some(head.base + n * PAGE);
        } else {
          forall a
            ensures IndexOf(tail, a).None?
          {
            NothingHeld(tail, a);
          }
        }
      }
    }
  }
}
