/** The bitmap of physical pages: reserveMemory, init, alloc and free of src/high/memory/mem.cpp:108-228.

    Bit i of the bitmap belongs to the i-th usable page.  The methods work on the bytes; what they do is
    stated on the sequence of bits. */
module FrameAllocator {
  import opened Bitmaps
  import opened Common
  import opened MemoryMap
  import opened Rests
  import opened Subregion

  // ---------------------------------------------------------------- ranges of addresses

  // The bits of all pages with addresses from lo to hi are v.
  ghost function Marked(bits: seq<bool>, pages: seq<nat>, lo: nat, hi: nat, v: bool): (r: seq<bool>)
    requires |bits| == |pages|
    ensures |r| == |bits| && forall i :: 0 <= i < |r| ==> r[i] == if lo <= pages[i] < hi then v else bits[i]
  {
    seq(|bits|, i requires 0 <= i < |bits| => if lo <= pages[i] < hi then v else bits[i])
  }

  // The end of the last page that a range touches.
  function RangeEnd(start: nat, len: nat): nat {
    Align(start + len + (PAGE - 1))
  }

  // What reserveMemory has to do: the bits of all pages that the range touches.
  ghost function Reserved(bits: seq<bool>, pages: seq<nat>, start: nat, len: nat, v: bool): seq<bool>
    requires |bits| == |pages|
  {
    if len == 0 then bits else Marked(bits, pages, Align(start), RangeEnd(start, len), v)
  }

  lemma MarkedNone(bits: seq<bool>, pages: seq<nat>, lo: nat, v: bool)
    requires |bits| == |pages|
    ensures Marked(bits, pages, lo, lo, v) == bits
  {
  }

  // The page-by-page path: one more page.
  lemma MarkedPage(bits: seq<bool>, rs: seq<Region>, lo: nat, hi: nat, v: bool)
    requires Aligned(rs) && Sorted(rs) && |bits| == |Pages(rs)| && lo % PAGE == hi % PAGE == 0 && lo <= hi
    ensures var was := Marked(bits, Pages(rs), lo, hi, v);
            Marked(bits, Pages(rs), lo, hi + PAGE, v) ==
            match IndexOf(rs, hi)
            case None => was
            case Some(i) => if i < |bits| then was[i := v] else was
    ensures IndexOf(rs, hi).Some? ==> IndexOf(rs, hi).value < |bits|
  {
    PagesFrom(rs, 0);
    IndexIsPosition(rs, hi);
    var pages := Pages(rs);
    assert Align(hi) == hi;
    forall i | 0 <= i < |pages| && hi <= pages[i] < hi + PAGE
      ensures pages[i] == hi
    {
      assert pages[i] % PAGE == 0;
    }
  }

  // The path by indices marks the pages between two pages.
  lemma MarkedIndices(bits: seq<bool>, pages: seq<nat>, from: nat, to: nat, v: bool, r: seq<bool>)
    requires Ascending(pages) && |bits| == |pages| == |r| && from < |pages| && to < |pages|
    requires forall i :: 0 <= i < |r| ==> r[i] == if from <= i < to then v else bits[i]
    ensures r == Marked(bits, pages, pages[from], pages[to], v)
  {
    forall i | 0 <= i < |pages|
      ensures from <= i <==> pages[from] <= pages[i]
      ensures i < to <==> pages[i] < pages[to]
    {
    }
  }

  // ---------------------------------------------------------------- the search

  // The bits in cyclic order, round after round.
  predicate At(bits: seq<bool>, q: nat)
    requires bits != []
  {
    bits[Rest(q, |bits|)]
  }

  lemma AtPlace(bits: seq<bool>, p: nat, i: nat)
    requires bits != []
    ensures At(bits, Rest(p, |bits|) + i) == At(bits, p + i)
  {
    RestSum(p, i, |bits|);
  }

  lemma AtRound(bits: seq<bool>, q: nat)
    requires q < |bits|
    ensures At(bits, q + |bits|) == At(bits, q) == bits[q]
  {
    RestStep(q, |bits|);
    RestSmall(q, |bits|);
  }

  // count clear bits from p on.
  ghost predicate FreeRun(bits: seq<bool>, p: nat, count: nat)
    requires bits != []
  {
    forall q :: p <= q < p + count ==> !At(bits, q)
  }

  ghost predicate HasRun(bits: seq<bool>, count: nat)
    requires bits != []
  {
    exists p: nat :: FreeRun(bits, p, count)
  }

  // The first set bit among those at p + i to p + count - 1.
  function Scan(bits: seq<bool>, p: nat, i: nat, count: nat): (s: Option<nat>)
    requires bits != []
    ensures s.Some? ==> s.value < |bits| && bits[s.value]
    decreases count - i
  {
    if i >= count then None
    else if At(bits, p + i) then Some(Rest(p + i, |bits|))
    else Scan(bits, p, i + 1, count)
  }

  lemma {:induction false} ScanPlace(bits: seq<bool>, p: nat, i: nat, count: nat)
    requires bits != []
    ensures Scan(bits, Rest(p, |bits|), i, count) == Scan(bits, p, i, count)
    decreases count - i
  {
    hide At, Rest;
    if i < count {
      AtPlace(bits, p, i);
      RestSum(p, i, |bits|);
      ScanPlace(bits, p, i + 1, count);
    }
  }

  // Where the scan stops.
  lemma {:induction false} ScanStops(bits: seq<bool>, p: nat, i: nat, count: nat) returns (q: nat)
    requires bits != [] && i <= count && FreeRun(bits, p, i)
    ensures Scan(bits, p, i, count).None? ==> FreeRun(bits, p, count)
    ensures Scan(bits, p, i, count).Some? ==>
              && p + i <= q < p + count && At(bits, q) && Scan(bits, p, i, count).value == Rest(q, |bits|)
              && FreeRun(bits, p, q - p)
    decreases count - i
  {
    hide At, Rest;
    q := p + i;
    if i < count && !At(bits, p + i) {
      q := ScanStops(bits, p, i + 1, count);
    }
  }

  lemma {:induction false} RunAtPlace(bits: seq<bool>, p: nat, count: nat)
    requires bits != []
    ensures FreeRun(bits, Rest(p, |bits|), count) <==> FreeRun(bits, p, count)
  {
    var r := Rest(p, |bits|);
    hide At, Rest;
    if FreeRun(bits, p, count) {
      forall q | r <= q < r + count
        ensures !At(bits, q)
      {
        AtPlace(bits, p, q - r);
        assert !At(bits, p + (q - r));
      }
    }
    if FreeRun(bits, r, count) {
      forall q | p <= q < p + count
        ensures !At(bits, q)
      {
        AtPlace(bits, p, q - p);
        assert !At(bits, r + (q - p));
      }
    }
  }

  // No run begins after start, as far as end.
  ghost predicate NoRunWithin(bits: seq<bool>, start: nat, end: nat, count: nat)
    requires bits != []
  {
    forall p :: start < p <= end ==> !FreeRun(bits, p, count)
  }

  // Nor anywhere else, if that is all the way round.
  lemma {:induction false} NoRunAtAll(bits: seq<bool>, start: nat, end: nat, count: nat)
    requires bits != [] && start < |bits| && start + |bits| <= end && NoRunWithin(bits, start, end, count)
    ensures !HasRun(bits, count)
  {
    hide FreeRun, Rest;
    var n := |bits|;
    forall p: nat
      ensures !FreeRun(bits, p, count)
    {
      var r := Rest(p, n);
      RunAtPlace(bits, p, count);
      if r <= start {
        RestStep(r, n);
        RestSmall(r, n);
        RunAtPlace(bits, r + n, count);
        RunAtPlace(bits, r, count);
        assert !FreeRun(bits, r + n, count);
      }
    }
  }

  // One turn that fails goes on to the next set bit; if the bit at start is set, it does not go past it.
  lemma {:induction false} TurnFails(bits: seq<bool>, start: nat, at: nat, count: nat, s: nat) returns (at': nat)
    requires bits != [] && start < |bits| && start <= at && NoRunWithin(bits, start, at, count)
    requires Scan(bits, at + 1, 0, count) == Some(s)
    ensures at' > at && s == Rest(at', |bits|) && NoRunWithin(bits, start, at', count)
    ensures at < start + |bits| && bits[start] ==> at' <= start + |bits|
  {
    hide Rest, At, Scan;
    at' := ScanStops(bits, at + 1, 0, count);
    AtRound(bits, start);
  }

  // ---------------------------------------------------------------- the state after boot

  const UPPER := Interval(0xA0000, 0x100000)

  // What init reserves (lines 191-200).
  function BootRanges(place: nat, size: nat, info: Interval, trampoline: Interval, kernel: Interval): seq<Interval> {
    [Interval(place, place + size), Interval(0, PAGE), info, trampoline, kernel, UPPER]
  }

  // A page that some range of at least one byte touches.
  ghost predicate Booked(page: nat, ranges: seq<Interval>) {
    exists r :: r in ranges && r.left < r.right && Align(r.left) <= page < RangeEnd(r.left, r.right - r.left)
  }

  // The set bits are those of booked pages.
  ghost predicate BitsBooked(bits: seq<bool>, pages: seq<nat>, ranges: seq<Interval>)
    requires |bits| == |pages|
  {
    forall i :: 0 <= i < |bits| ==> (bits[i] <==> Booked(pages[i], ranges))
  }

  // Some byte of a page lies in a range.
  ghost predicate HasByte(page: nat, left: nat, right: nat) {
    left < right && left < page + 4096 && page < right
  }

  // The pages that init keeps: those with a byte of the bitmap, of page 0, of the boot information, of the
  // trampoline, of the kernel, or of the upper memory.
  ghost predicate InitKeeps(page: nat, place: nat, size: nat, info: Interval, trampoline: Interval, kernel: Interval) {
    || HasByte(page, place, place + size) || HasByte(page, 0, 4096) || HasByte(page, info.left, info.right)
    || HasByte(page, trampoline.left, trampoline.right) || HasByte(page, kernel.left, kernel.right)
    || HasByte(page, 0xA0000, 0x100000)
  }

  lemma TouchedIff(page: nat, r: Interval)
    requires page % PAGE == 0
    ensures r.left < r.right && Align(r.left) <= page < RangeEnd(r.left, r.right - r.left) <==>
            HasByte(page, r.left, r.right)
  {
  }

  lemma {:induction false} BookedIsKept(page: nat, place: nat, size: nat, info: Interval, trampoline: Interval,
      kernel: Interval)
    requires page % PAGE == 0
    ensures Booked(page, BootRanges(place, size, info, trampoline, kernel)) <==>
            InitKeeps(page, place, size, info, trampoline, kernel)
  {
    var ranges := BootRanges(place, size, info, trampoline, kernel);
    forall r: Interval
      ensures r.left < r.right && Align(r.left) <= page < RangeEnd(r.left, r.right - r.left) <==>
              HasByte(page, r.left, r.right)
    {
      TouchedIff(page, r);
    }
    hide HasByte, Align, RangeEnd;
    assert forall r :: r in ranges <==>
      r in {Interval(place, place + size), Interval(0, PAGE), info, trampoline, kernel, UPPER};
  }

  lemma BitsKept(bits: seq<bool>, pages: seq<nat>, place: nat, size: nat, info: Interval, trampoline: Interval,
      kernel: Interval)
    requires Ascending(pages) && |bits| == |pages|
    requires BitsBooked(bits, pages, BootRanges(place, size, info, trampoline, kernel))
    ensures forall i :: 0 <= i < |bits| ==> (bits[i] <==> InitKeeps(pages[i], place, size, info, trampoline, kernel))
  {
    forall i | 0 <= i < |bits|
      ensures bits[i] <==> InitKeeps(pages[i], place, size, info, trampoline, kernel)
    {
      assert pages[i] % PAGE == 0;
      BookedIsKept(pages[i], place, size, info, trampoline, kernel);
    }
  }

  lemma BookOne(bits: seq<bool>, pages: seq<nat>, ranges: seq<Interval>, r: Interval)
    requires |bits| == |pages| && r.left <= r.right && BitsBooked(bits, pages, ranges)
    ensures BitsBooked(Reserved(bits, pages, r.left, r.right - r.left, true), pages, ranges + [r])
  {
    forall i | 0 <= i < |pages|
      ensures Booked(pages[i], ranges + [r]) <==>
              Booked(pages[i], ranges)
              || (r.left < r.right && Align(r.left) <= pages[i] < RangeEnd(r.left, r.right - r.left))
    {
      assert r in ranges + [r];
    }
  }

  function Total(rs: seq<Region>): nat {
    if rs == [] then 0
    else Total(rs[..|rs| - 1]) + if rs[|rs| - 1].usable then rs[|rs| - 1].length else 0
  }

  lemma {:induction false} TotalCons(rs: seq<Region>)
    requires rs != []
    ensures Total(rs) == (if rs[0].usable then rs[0].length else 0) + Total(rs[1..])
  {
    if |rs| > 1 {
      TotalCons(rs[..|rs| - 1]);
      assert rs[..|rs| - 1][1..] == rs[1..][..|rs| - 2];
    }
  }

  // The bitmap has as many bits as there are usable pages.
  lemma {:induction false} TotalIsPages(rs: seq<Region>)
    requires Aligned(rs)
    ensures Total(rs) == |Pages(rs)| * PAGE
  {
    if rs != [] {
      TotalCons(rs);
      TotalIsPages(rs[1..]);
    }
  }

  // A region that the search for the bitmap's place looks into (lines 176-178).
  ghost predicate Qualifies(r: Region, size: nat) {
    r.usable && r.length > size && r.base + size <= 0x4000_0000
  }

  // A place in a region that the search would take.
  ghost predicate RoomIn(r: Region, reserved: seq<Interval>, x: nat, size: nat) {
    size > 0 && Clear(Interval(r.base, r.base + r.length), reserved, x, size)
  }

  lemma {:induction false} FirstPlace(regions: seq<Region>, reserved: seq<Interval>, size: nat, i: nat, place: nat)
    requires NotLow(reserved) && i < |regions|
    requires forall r :: r in regions[..i] && Qualifies(r, size) ==>
               Find(Interval(r.base, r.base + r.length), reserved, size).None?
    requires var found := Find(Interval(regions[i].base, regions[i].base + regions[i].length), reserved, size);
             found.Some? && found.value.left == place
    ensures forall x :: RoomIn(regions[i], reserved, x, size) ==> place <= x
    ensures forall j, x :: 0 <= j < i && Qualifies(regions[j], size) ==> !RoomIn(regions[j], reserved, x, size)
  {
    forall j, x: nat | 0 <= j <= i && RoomIn(regions[j], reserved, x, size)
      ensures j < i ==> !Qualifies(regions[j], size)
      ensures j == i ==> place <= x
    {
      FindsAPlace(Interval(regions[j].base, regions[j].base + regions[j].length), reserved, size, x);
      assert j < i ==> regions[j] in regions[..i];
    }
  }

  // The search for a place for the bitmap (lines 174-186): the lowest place that the first region with one
  // has to offer.  None means that the source panics.
  method PlaceBitmap(regions: seq<Region>, reserved: seq<Interval>, size: nat) returns (place: Option<nat>)
    requires NotLow(reserved)
    ensures place.Some? ==>
              exists r :: r in regions && r.usable && r.base <= place.value && place.value + size <= r.base + r.length
    ensures place.Some? ==>
              forall x :: x in reserved ==> !Interval(place.value, place.value + size).Intersects(x)
    ensures place.Some? ==>
              exists k :: 0 <= k < |regions| && Qualifies(regions[k], size)
                && regions[k].base <= place.value && place.value + size <= regions[k].base + regions[k].length
                && (forall x :: RoomIn(regions[k], reserved, x, size) ==> place.value <= x)
                && forall j, x :: 0 <= j < k && Qualifies(regions[j], size) ==> !RoomIn(regions[j], reserved, x, size)
    ensures place.None? ==>
              forall r :: r in regions && Qualifies(r, size) ==>
                Find(Interval(r.base, r.base + r.length), reserved, size).None?
  {
    var i := 0;
    while i < |regions|
      invariant i <= |regions|
      invariant forall r :: r in regions[..i] && Qualifies(r, size) ==>
                  Find(Interval(r.base, r.base + r.length), reserved, size).None?
    {
      var r := regions[i];
      if r.usable && r.length > size && r.base + size <= 0x4000_0000 {
        var part := Find(Interval(r.base, r.base + r.length), reserved, size);
        if part.Some? {
          assert part.value == Interval(part.value.left, part.value.left + size);
          FirstPlace(regions, reserved, size, i, part.value.left);
          return Some(part.value.left);
        }
      }
      i := i + 1;
    }
    return None;
  }

  // ---------------------------------------------------------------- the allocator

  class Allocator {
    const regions: seq<Region>
    const bitmap: array<bv8>
    const size: nat
    var cursor: nat

    ghost predicate Valid()
      reads this
    {
      && Aligned(regions) && Sorted(regions)
      && bitmap.Length == size == |Pages(regions)| && cursor < size
    }

    function Bits(): seq<bool>
      requires Valid()
      reads this, bitmap
    {
      BitsOf(bitmap[..], size)
    }

    // init, once a place for the bitmap is found: the bitmap's own pages, page 0, the boot information,
    // the trampoline, the kernel and the upper memory are reserved, and nothing else is.
    constructor (regions: seq<Region>, place: nat, info: Interval, trampoline: Interval, kernel: Interval)
      requires Aligned(regions) && Sorted(regions) && Pages(regions) != []
      requires info.left <= info.right && trampoline.left <= trampoline.right && kernel.left <= kernel.right
      ensures Valid() && fresh(bitmap) && this.regions == regions && cursor == 0
      ensures forall i :: 0 <= i < size ==>
                (Bits()[i] <==> InitKeeps(Pages(regions)[i], place, size, info, trampoline, kernel))
      ensures BitsBooked(Bits(), Pages(regions), BootRanges(place, size, info, trampoline, kernel))
    {
      var total := 0;
      var i := 0;
      while i < |regions|
        invariant i <= |regions| && total == Total(regions[..i])
      {
        assert regions[..i + 1][..i] == regions[..i];
        if regions[i].usable {
          total := total + regions[i].length;
        }
        i := i + 1;
      }
      assert regions[..i] == regions;
      TotalIsPages(regions);
      this.regions := regions;
      this.size := total / PAGE;
      this.bitmap := new bv8[total / PAGE](_ => 0);
      this.cursor := 0;
      new;
      PagesFrom(regions, 0);
      hide Aligned, Sorted, Pages;
      ghost var pages := Pages(regions);
      AllClear(bitmap[..], size);
      assert BitsBooked(Bits(), pages, []);
      hide BitsOf, BitsBooked;
      ghost var booked := Book(Interval(place, place + size), []);
      booked := Book(Interval(0, PAGE), booked);
      booked := Book(info, booked);
      booked := Book(trampoline, booked);
      booked := Book(kernel, booked);
      booked := Book(UPPER, booked);
      assert booked == BootRanges(place, size, info, trampoline, kernel);
      BitsKept(Bits(), pages, place, size, info, trampoline, kernel);
    }

    // Reserves one more range.
    method Book(r: Interval, ghost booked: seq<Interval>) returns (ghost booked': seq<Interval>)
      requires Valid() && r.left <= r.right && BitsBooked(Bits(), Pages(regions), booked)
      modifies bitmap
      ensures Valid() && booked' == booked + [r] && BitsBooked(Bits(), Pages(regions), booked')
    {
      hide Aligned, Sorted, Pages, BitsOf, BitsBooked, Reserved;
      BookOne(Bits(), Pages(regions), booked, r);
      ReserveMemory(r.left, r.right - r.left, true);
      booked' := booked + [r];
    }

    method SetBit(index: nat, v: bool)
      requires Valid() && index < size
      modifies bitmap
      ensures Valid() && Bits() == old(Bits())[index := v]
    {
      hide BitsOf, Mask, Bit;
      var b := if v then bitmap[index / 8] | Mask(index % 8) else bitmap[index / 8] & !Mask(index % 8);
      SetByte(bitmap[..], size, index, b, v);
      bitmap[index / 8] := b;
      assert bitmap[..] == old(bitmap[..])[index / 8 := b];
    }

    method GetBit(index: nat) returns (v: bool)
      requires Valid() && index < size
      ensures Valid() && v == Bits()[index]
    {
      v := Bit(bitmap[index / 8], index % 8);
    }

    // reserveMemory.  Both of its paths mark exactly the pages that the range touches.
    method ReserveMemory(start: nat, len: nat, reserve: bool)
      requires Valid()
      modifies bitmap
      ensures Valid() && Bits() == Reserved(old(Bits()), Pages(regions), start, len, reserve)
    {
      hide BitsOf, Aligned, Sorted, Pages, Marked, IndexOf;
      if len == 0 {
        return;
      }
      var end := RangeEnd(start, len);
      var startIndex := ToIndex(regions, start);
      var endIndex := ToIndex(regions, end);
      if startIndex.None? || endIndex.None? {
        ReservePages(start, end, reserve);
      } else {
        ReserveIndices(start, end, startIndex.value, endIndex.value, reserve);
      }
    }

    // Lines 114-124: page by page.
    method ReservePages(start: nat, end: nat, reserve: bool)
      requires Valid() && end % PAGE == 0 && start < end
      modifies bitmap
      ensures Valid() && Bits() == Marked(old(Bits()), Pages(regions), Align(start), end, reserve)
    {
      hide BitsOf, Aligned, Sorted, Pages, Marked, IndexOf;
      ghost var was, pages := Bits(), Pages(regions);
      var a := start;
      MarkedNone(was, pages, Align(start), reserve);
      while a < end
        invariant Valid() && start <= a < end + PAGE
        invariant Bits() == Marked(was, pages, Align(start), Align(a), reserve)
      {
        var index := ToIndex(regions, a);
        MarkedPage(was, regions, Align(start), Align(a), reserve);
        AlignedIndex(regions, a);
        if index.Some? {
          SetBit(index.value, reserve);
        }
        a := a + PAGE;
      }
    }

    // Lines 126-134: from the first page's bit to the last one's.
    method ReserveIndices(start: nat, end: nat, startIndex: nat, endIndex: nat, reserve: bool)
      requires Valid() && end % PAGE == 0
      requires IndexOf(regions, start) == Some(startIndex) && IndexOf(regions, end) == Some(endIndex)
      modifies bitmap
      ensures Valid() && Bits() == Marked(old(Bits()), Pages(regions), Align(start), end, reserve)
    {
      hide BitsOf, Pages, Marked, IndexOf;
      IndicesOfRange(regions, start, end);
      hide Aligned, Sorted;
      ghost var was, pages := Bits(), Pages(regions);
      var index := startIndex;
      while index < endIndex
        invariant Valid() && startIndex <= index && |Bits()| == |was|
        invariant forall i :: 0 <= i < |was| ==>
                    Bits()[i] == if startIndex <= i < index && i < endIndex then reserve else was[i]
      {
        SetBit(index, reserve);
        index := index + 1;
      }
      MarkedIndices(was, pages, startIndex, endIndex, reserve, Bits());
    }

    // One turn of alloc's loop (lines 207-215).
    method Probe(count: nat) returns (found: bool)
      requires Valid()
      modifies `cursor
      ensures Valid() && Bits() == old(Bits())
      ensures found == Scan(Bits(), old(cursor) + 1, 0, count).None?
      ensures found ==> cursor == Rest(old(cursor) + 1, size)
      ensures !found ==> Scan(Bits(), old(cursor) + 1, 0, count) == Some(cursor)
    {
      hide BitsOf, Aligned, Sorted, Pages, Rest;
      ghost var bits := Bits();
      ghost var from := cursor + 1;
      cursor := Rest(cursor + 1, size);
      var i := 0;
      while i < count
        invariant Valid() && i <= count && cursor == Rest(from, size)
        invariant Scan(bits, from, 0, count) == Scan(bits, from, i, count)
      {
        RestSum(from, i, size);
        var index := Rest(cursor + i, size);
        var taken := GetBit(index);
        if taken {
          cursor := index;
          return false;
        }
        i := i + 1;
      }
      return true;
    }

    // alloc.  From a set bit, or if there is a run at all, it ends: with the first run after the cursor,
    // or with none if there is none.
    method Alloc(count: nat) returns (address: Option<nat>)
      requires Valid() && (Bits()[cursor] || HasRun(Bits(), count))
      modifies this, bitmap
      ensures Valid()
      ensures address.Some? <==> old(HasRun(Bits(), count))
      ensures address.None? ==> Bits() == old(Bits()) && cursor == old(cursor)
      ensures address.Some? ==>
                && address.value == Pages(regions)[cursor] && FreeRun(old(Bits()), cursor, count)
                && Bits() == Reserved(old(Bits()), Pages(regions), address.value, count * PAGE, true)
                && NextFit(old(Bits()), old(cursor), cursor, count)
    {
      hide BitsOf, Aligned, Sorted, Pages, Rest, Scan, FreeRun, NoRunWithin, Reserved, AddressOf, HasRun;
      var start := cursor;
      ghost var bits := Bits();
      ghost var at := start;
      NothingYet(bits, start, count);
      while true
        invariant Valid() && Bits() == bits && start <= at < start + size
        invariant cursor == Rest(at, size) && NoRunWithin(bits, start, at, count)
        decreases start + size - at
      {
        ScanFrom(bits, at, count);
        var found := Probe(count);
        if found {
          RunFound(bits, start, at, count, cursor);
          AddressIsPage(regions, cursor);
          address := ToPhysical(regions, cursor);
          if address.None? {
            return;
          }
          ReserveMemory(address.value, count * PAGE, true);
          return;
        }
        at := TurnFails(bits, start, at, count, cursor);
        if at >= start + size {
          NoRunAtAll(bits, start, at, count);
        }
        PlaceBack(start, at, size);
        if start == cursor {
          return None;
        }
      }
    }

    method Free(address: nat, count: nat)
      requires Valid()
      modifies bitmap
      ensures Valid() && Bits() == Reserved(old(Bits()), Pages(regions), address, count * PAGE, false)
    {
      ReserveMemory(address, count * PAGE, false);
    }
  }

  // The run at `found` is the first that begins after start.
  ghost predicate NextFit(bits: seq<bool>, start: nat, found: nat, count: nat)
    requires bits != []
  {
    exists at: nat ::
      start < at <= start + |bits| && found == Rest(at, |bits|) && NoRunWithin(bits, start, at - 1, count)
  }

  lemma NothingYet(bits: seq<bool>, start: nat, count: nat)
    requires start < |bits|
    ensures NoRunWithin(bits, start, start, count) && start == Rest(start, |bits|)
  {
    RestSmall(start, |bits|);
  }

  lemma {:induction false} ScanFrom(bits: seq<bool>, at: nat, count: nat)
    requires bits != []
    ensures Scan(bits, Rest(at, |bits|) + 1, 0, count) == Scan(bits, at + 1, 0, count)
    ensures Rest(Rest(at, |bits|) + 1, |bits|) == Rest(at + 1, |bits|)
  {
    hide Scan, Rest;
    RestSum(at, 1, |bits|);
    ScanPlace(bits, at + 1, 0, count);
    ScanPlace(bits, Rest(at, |bits|) + 1, 0, count);
  }

  lemma {:induction false} RunFound(bits: seq<bool>, start: nat, at: nat, count: nat, cursor: nat)
    requires bits != [] && start <= at < start + |bits| && NoRunWithin(bits, start, at, count)
    requires Scan(bits, at + 1, 0, count).None? && cursor == Rest(at + 1, |bits|)
    ensures FreeRun(bits, cursor, count) && HasRun(bits, count) && NextFit(bits, start, cursor, count)
  {
    hide Scan, Rest;
    var q := ScanStops(bits, at + 1, 0, count);
    RunAtPlace(bits, at + 1, count);
  }

  lemma PlaceBack(start: nat, at: nat, n: nat)
    requires start < n
    ensures start < at < start + n ==> Rest(at, n) != start
    ensures at == start + n ==> Rest(at, n) == start
  {
    if at < n {
      RestSmall(at, n);
    } else {
      RestStep(at - n, n);
      if at - n < n {
        RestSmall(at - n, n);
      }
    }
  }

  lemma AlignedIndex(rs: seq<Region>, a: nat)
    ensures IndexOf(rs, Align(a)) == IndexOf(rs, a) && Align(a + PAGE) == Align(a) + PAGE
    ensures Align(Align(a)) == Align(a)
  {
    assert Align(Align(a)) == Align(a);
    SameIndex(rs, a, Align(a));
  }

  lemma {:induction false} SameIndex(rs: seq<Region>, a: nat, b: nat)
    requires Align(a) == Align(b)
    ensures IndexOf(rs, a) == IndexOf(rs, b)
  {
    if rs != [] {
      SameIndex(rs[1..], a, b);
    }
  }

  lemma IndicesOfRange(rs: seq<Region>, start: nat, end: nat)
    requires Aligned(rs) && Sorted(rs) && IndexOf(rs, start).Some? && IndexOf(rs, end).Some? && end % PAGE == 0
    ensures Ascending(Pages(rs))
    ensures IndexOf(rs, start).value < |Pages(rs)| && Pages(rs)[IndexOf(rs, start).value] == Align(start)
    ensures IndexOf(rs, end).value < |Pages(rs)| && Pages(rs)[IndexOf(rs, end).value] == end
  {
    PagesFrom(rs, 0);
    IndexIsPosition(rs, start);
    IndexIsPosition(rs, end);
  }

  // ---------------------------------------------------------------- a search that never ends

  // Where the cursor is after n turns of alloc that fail, if it comes to that.
  function Turns(bits: seq<bool>, start: nat, count: nat, n: nat): Option<nat>
    requires bits != []
  {
    if n == 0 then Some(start)
    else
      match Turns(bits, start, count, n - 1)
      case None => None
      case Some(c) => Scan(bits, c + 1, 0, count)
  }

  // From a clear bit, without a run anywhere, every turn fails and none returns to the start: what Alloc
  // requires is what the loop needs to end.
  lemma {:induction false} NeverEnds(bits: seq<bool>, start: nat, count: nat, n: nat)
    requires start < |bits| && !bits[start] && !HasRun(bits, count)
    ensures Turns(bits, start, count, n).Some? && (n > 0 ==> Turns(bits, start, count, n).value != start)
  {
    if n > 0 {
      NeverEnds(bits, start, count, n - 1);
      var c := Turns(bits, start, count, n - 1).value;
      hide Rest, At;
      var q := ScanStops(bits, c + 1, 0, count);
    }
  }

  // One page clear and one taken, and two pages wanted from the clear one on: every turn ends at the
  // taken page, and the next begins behind it.
  lemma {:induction false} LoopsForEver(n: nat)
    ensures !HasRun([false, true], 2)
    ensures n > 0 ==> Turns([false, true], 0, 2, n) == Some(1)
  {
    var bits := [false, true];
    forall p: nat
      ensures !FreeRun(bits, p, 2)
    {
      OddOrEven(p);
      assert At(bits, p) || At(bits, p + 1);
    }
    if n > 0 {
      LoopsForEver(n - 1);
      NeverEnds(bits, 0, 2, n);
      var at := Turns(bits, 0, 2, n - 1).value;
      hide At;
      var q := ScanStops(bits, at + 1, 0, 2);
    }
  }

  lemma OddOrEven(p: nat)
    ensures Rest(p, 2) == 1 || Rest(p + 1, 2) == 1
  {
  }

  // For a single page there is always an end: the search finds a page exactly if one is free.
  lemma {:induction false} OnePage(bits: seq<bool>, start: nat)
    requires start < |bits|
    ensures bits[start] || HasRun(bits, 1)
    ensures HasRun(bits, 1) <==> exists i :: 0 <= i < |bits| && !bits[i]
  {
    forall i | 0 <= i < |bits|
      ensures At(bits, i) == bits[i]
    {
      AtRound(bits, i);
    }
    if i :| 0 <= i < |bits| && !bits[i] {
      assert FreeRun(bits, i, 1);
    } else {
      forall p: nat
        ensures !FreeRun(bits, p, 1)
      {
        assert At(bits, p);
      }
    }
    assert !bits[start] ==> FreeRun(bits, start, 1);
  }

  // ---------------------------------------------------------------- what a run of pages is

  lemma {:induction false} PagesApart(pages: seq<nat>, i: nat, j: nat)
    requires Ascending(pages) && i <= j < |pages|
    ensures pages[i] + (j - i) * PAGE <= pages[j]
    decreases j - i
  {
    if i < j {
      PagesApart(pages, i, j - 1);
      assert pages[j - 1] % PAGE == 0 && pages[j] % PAGE == 0;
    }
  }

  // What alloc reserves was free, whatever lies between its pages.
  lemma {:induction false} ReservedWasFree(bits: seq<bool>, pages: seq<nat>, c: nat, count: nat)
    requires Ascending(pages) && |bits| == |pages| && c < |bits| && FreeRun(bits, c, count)
    ensures forall i :: 0 <= i < |pages| && pages[c] <= pages[i] < pages[c] + count * PAGE ==>
              c <= i < c + count && !bits[i]
  {
    forall i | 0 <= i < |pages| && pages[c] <= pages[i] < pages[c] + count * PAGE
      ensures c <= i < c + count && !bits[i]
    {
      if c <= i {
        PagesApart(pages, c, i);
      }
      AtRound(bits, i);
    }
  }

  // free of what alloc returned restores the bitmap.
  lemma {:induction false} FreeUndoesAlloc(bits: seq<bool>, pages: seq<nat>, c: nat, count: nat)
    requires Ascending(pages) && |bits| == |pages| && c < |bits| && FreeRun(bits, c, count)
    ensures var taken := Reserved(bits, pages, pages[c], count * PAGE, true);
            |taken| == |pages| && Reserved(taken, pages, pages[c], count * PAGE, false) == bits
  {
    ReservedWasFree(bits, pages, c, count);
    PageRange(pages, c, count);
  }

  lemma PageRange(pages: seq<nat>, c: nat, count: nat)
    requires Ascending(pages) && c < |pages|
    ensures Align(pages[c]) == pages[c] && (count > 0 ==> RangeEnd(pages[c], count * PAGE) == pages[c] + count * PAGE)
  {
    assert pages[c] % PAGE == 0;
  }

  // Two allocations of which neither has been freed share no usable page.
  lemma {:induction false} AllocationsApart(bits: seq<bool>, pages: seq<nat>, c: nat, count: nat, c': nat, count': nat)
    requires Ascending(pages) && |bits| == |pages| && c < |bits| && c' < |bits|
    requires forall i :: 0 <= i < |pages| && pages[c] <= pages[i] < pages[c] + count * PAGE ==> bits[i]
    requires FreeRun(bits, c', count')
    ensures forall i :: 0 <= i < |pages| && pages[c] <= pages[i] < pages[c] + count * PAGE ==>
              !(pages[c'] <= pages[i] < pages[c'] + count' * PAGE)
  {
    ReservedWasFree(bits, pages, c', count');
  }

  // The run may wrap around or cross a gap, and alloc returns one address: all the pages that its caller
  // will use exist exactly if the run lies in one piece.
  lemma {:induction false} InOnePieceIff(pages: seq<nat>, c: nat, count: nat)
    requires Ascending(pages) && c < |pages| && count > 0
    ensures (forall k: nat :: k < count ==> pages[c] + k * PAGE in pages) <==>
            c + count <= |pages| && pages[c + count - 1] == pages[c] + (count - 1) * PAGE
  {
    if c + count <= |pages| && pages[c + count - 1] == pages[c] + (count - 1) * PAGE {
      forall k: nat | k < count
        ensures pages[c] + k * PAGE in pages
      {
        PagesApart(pages, c, c + k);
        PagesApart(pages, c + k, c + count - 1);
        assert pages[c + k] == pages[c] + k * PAGE;
      }
    }
    if forall k: nat :: k < count ==> pages[c] + k * PAGE in pages {
      InOnePiece(pages, c, count);
    }
  }

  // A gap behind the second page, or the end of memory behind the third: two clear pages in a row of bits,
  // of which the caller is given the address of the first and not the second page.
  lemma AcrossAGap()
    ensures var bits, pages := [false, false, false], [1 * PAGE, 2 * PAGE, 5 * PAGE];
            && Ascending(pages)
            && FreeRun(bits, 1, 2) && pages[1] + PAGE !in pages
            && FreeRun(bits, 2, 2) && pages[2] + PAGE !in pages
  {
  }

  lemma {:induction false} InOnePiece(pages: seq<nat>, c: nat, count: nat)
    requires Ascending(pages) && c < |pages| && count > 0
    requires forall k: nat :: k < count ==> pages[c] + k * PAGE in pages
    ensures c + count <= |pages| && pages[c + count - 1] == pages[c] + (count - 1) * PAGE
  {
    if count > 1 {
      InOnePiece(pages, c, count - 1);
      assert pages[c] + (count - 1) * PAGE in pages;
      var i :| 0 <= i < |pages| && pages[i] == pages[c] + (count - 1) * PAGE;
      if i > c + count - 1 {
        PagesApart(pages, c, i);
      }
    }
  }

  // In one piece, alloc reserves exactly the pages of its run, all of them free before.
  lemma {:induction false} ReservesTheRun(bits: seq<bool>, pages: seq<nat>, c: nat, count: nat)
    requires Ascending(pages) && |bits| == |pages| && count > 0 && c + count <= |pages|
    requires pages[c + count - 1] == pages[c] + (count - 1) * PAGE && FreeRun(bits, c, count)
    ensures forall i :: c <= i < c + count ==> !bits[i] && pages[i] == pages[c] + (i - c) * PAGE
    ensures forall i :: 0 <= i < |pages| ==>
              Reserved(bits, pages, pages[c], count * PAGE, true)[i] == (bits[i] || c <= i < c + count)
  {
    PageRange(pages, c, count);
    ReservedWasFree(bits, pages, c, count);
    forall i | c <= i < c + count
      ensures !bits[i] && pages[i] == pages[c] + (i - c) * PAGE
    {
      AtRound(bits, i);
      PagesApart(pages, c, i);
      PagesApart(pages, i, c + count - 1);
    }
  }

  // ---------------------------------------------------------------- single pages, as a set of frames

  function FreeFrames(bits: seq<bool>, pages: seq<nat>): (s: set<nat>)
    requires |bits| == |pages|
    ensures forall f: nat :: f in s <==> exists i :: 0 <= i < |bits| && !bits[i] && pages[i] / PAGE == f
  {
    if bits == [] then {}
    else
      var n := |bits| - 1;
      var rest := FreeFrames(bits[..n], pages[..n]);
      if bits[n] then rest else rest + {pages[n] / PAGE}
  }

  lemma FrameOnce(pages: seq<nat>, i: nat, j: nat)
    requires Ascending(pages) && i < |pages| && j < |pages|
    ensures pages[i] / PAGE == pages[j] / PAGE ==> i == j
  {
    assert pages[i] % PAGE == 0 && pages[j] % PAGE == 0;
  }

  lemma {:induction false} ReservesOne(bits: seq<bool>, pages: seq<nat>, c: nat, v: bool)
    requires Ascending(pages) && |bits| == |pages| && c < |bits|
    ensures Reserved(bits, pages, pages[c], 1 * PAGE, v) == bits[c := v]
  {
    PageRange(pages, c, 1);
    forall i | 0 <= i < |bits| && pages[c] <= pages[i] < pages[c] + PAGE
      ensures i == c
    {
      assert pages[i] % PAGE == 0 && pages[c] % PAGE == 0;
    }
  }

  lemma {:induction false} FramesWithout(bits: seq<bool>, pages: seq<nat>, c: nat, v: bool)
    requires Ascending(pages) && |bits| == |pages| && c < |bits|
    ensures !bits[c] <==> pages[c] / PAGE in FreeFrames(bits, pages)
    ensures FreeFrames(bits[c := v], pages) ==
            if v then FreeFrames(bits, pages) - {pages[c] / PAGE} else FreeFrames(bits, pages) + {pages[c] / PAGE}
  {
    forall i | 0 <= i < |bits|
      ensures pages[i] / PAGE == pages[c] / PAGE ==> i == c
    {
      FrameOnce(pages, i, c);
    }
    var before, after := FreeFrames(bits, pages), FreeFrames(bits[c := v], pages);
    forall f: nat
      ensures f in after <==> if f == pages[c] / PAGE then !v else f in before
    {
      if f in before && f != pages[c] / PAGE {
        var i :| 0 <= i < |bits| && !bits[i] && pages[i] / PAGE == f;
        assert !bits[c := v][i];
      }
      if f in after {
        var i :| 0 <= i < |bits| && !bits[c := v][i] && pages[i] / PAGE == f;
        assert i != c ==> !bits[i];
      }
      if f == pages[c] / PAGE && !v {
        assert !bits[c := v][c];
      }
    }
  }

  // alloc(1) takes a frame out of the free ones, and there is one to take unless none is free; free(1)
  // puts it back: what the page tables and the heap build on.
  lemma {:induction false} OneFrame(bits: seq<bool>, pages: seq<nat>, c: nat, v: bool)
    requires Ascending(pages) && |bits| == |pages| && c < |bits|
    ensures !bits[c] <==> pages[c] / PAGE in FreeFrames(bits, pages)
    ensures var bits' := Reserved(bits, pages, pages[c], 1 * PAGE, v);
            && |bits'| == |bits|
            && FreeFrames(bits', pages) ==
               if v then FreeFrames(bits, pages) - {pages[c] / PAGE} else FreeFrames(bits, pages) + {pages[c] / PAGE}
    ensures HasRun(bits, 1) <==> FreeFrames(bits, pages) != {}
  {
    ReservesOne(bits, pages, c, v);
    FramesWithout(bits, pages, c, v);
    OnePage(bits, c);
    hide Reserved, HasRun;
    if i :| 0 <= i < |bits| && !bits[i] {
      assert pages[i] / PAGE in FreeFrames(bits, pages);
    }
  }
}
