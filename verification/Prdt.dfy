/** The physical region descriptor table of a command: setup_physical_region, src/high/PCI/sata.cpp:613-642,
    and section 4.2.3.3 of the Serial ATA AHCI 1.3.1 specification. */
module Prdt {
  import opened Common

  // Entries of the table: what is left of 3 pages for 32 command tables (include/PCI/sata.h:152).
  const ENTRIES: nat := 16

  // The byte count has 22 bits and is one less than the number of bytes.
  const COUNTS: nat := 0x40_0000

  datatype Descriptor = Descriptor(base: nat, count: nat, interrupt: bool)

  datatype Error = InvalidMemory | FragmentedMemory

  datatype Result = Ok(regions: nat) | Err(error: Error)

  // Page number to frame number; the page table's answer for a virtual address.
  type Mapping = nat -> Option<nat>

  function Get(frames: Mapping, v: nat): Option<nat> {
    match frames(v / PAGE)
    case None => None
    case Some(f) => Some(f * PAGE + v % PAGE)
  }

  // n addresses in a row.
  function Span(base: nat, n: nat): (s: seq<nat>)
    ensures |s| == n && forall i :: 0 <= i < n ==> s[i] == base + i
  {
    seq(n, i => base + i)
  }

  // The bytes that descriptors denote, in the order in which the controller fills them.
  function Denoted(ds: seq<Descriptor>): seq<nat> {
    if ds == [] then []
    else Denoted(ds[..|ds| - 1]) + Span(ds[|ds| - 1].base, ds[|ds| - 1].count + 1)
  }

  ghost predicate Mapped(frames: Mapping, v: nat, n: nat) {
    forall i :: v <= i < v + n ==> Get(frames, i).Some?
  }

  // The physical bytes of the buffer at v.
  ghost function Physical(frames: Mapping, v: nat, n: nat): (s: seq<nat>)
    requires Mapped(frames, v, n)
    ensures |s| == n && forall i :: 0 <= i < n ==> s[i] == Get(frames, v + i).value
  {
    seq(n, i requires 0 <= i < n => Get(frames, v + i).value)
  }

  // Within a page, addresses follow each other.
  lemma WithinPage(frames: Mapping, v: nat, n: nat)
    requires Get(frames, v).Some? && n <= PAGE - v % PAGE
    ensures Mapped(frames, v, n) && Physical(frames, v, n) == Span(Get(frames, v).value, n)
  {
    forall i | v <= i < v + n
      ensures i / PAGE == v / PAGE && i % PAGE == v % PAGE + (i - v)
    {
    }
  }

  lemma PhysicalSum(frames: Mapping, v: nat, m: nat, n: nat)
    requires Mapped(frames, v, m) && Mapped(frames, v + m, n)
    ensures Mapped(frames, v, m + n)
    ensures Physical(frames, v, m + n) == Physical(frames, v, m) + Physical(frames, v + m, n)
  {
  }

  lemma SpanSum(base: nat, m: nat, n: nat)
    ensures Span(base, m + n) == Span(base, m) + Span(base + m, n)
  {
  }

  lemma DenotedMore(ds: seq<Descriptor>, d: Descriptor)
    ensures Denoted(ds + [d]) == Denoted(ds) + Span(d.base, d.count + 1)
  {
    assert (ds + [d])[..|ds|] == ds;
  }

  // Lengthening the last descriptor appends the bytes after its end.
  lemma DenotedLonger(ds: seq<Descriptor>, d: Descriptor, n: nat)
    ensures Denoted(ds + [d.(count := d.count + n)]) == Denoted(ds + [d]) + Span(d.base + d.count + 1, n)
  {
    DenotedMore(ds, d);
    DenotedMore(ds, d.(count := d.count + n));
    SpanSum(d.base, d.count + 1, n);
  }

  // The bytes of the buffer from `offset` to the end of its page (line 622).
  function Chunk(v: nat, size: nat, offset: nat): (n: nat)
    requires offset < size
    ensures 0 < n <= size - offset && n <= PAGE - (v + offset) % PAGE
    ensures offset + n < size ==> (v + offset + n) % PAGE == 0
  {
    var rest := PAGE - (v + offset) % PAGE;
    if size - offset < rest then size - offset else rest
  }

  // A page that follows the last one physically is appended where the last chunk ended.
  lemma FollowsOn(frames: Mapping, v: nat, size: nat, prev: nat, offset: nat)
    requires prev < size && offset == prev + Chunk(v, size, prev) < size
    requires Get(frames, v + prev).Some? && Get(frames, v + offset).Some?
    requires Get(frames, v + prev).value + PAGE == Get(frames, v + offset).value
    ensures Get(frames, v + prev).value + (offset - prev) == Get(frames, v + offset).value
  {
  }

  // The state of the loop: the table denotes the first `offset` bytes of the buffer.
  ghost predicate Described(frames: Mapping, v: nat, offset: nat, ds: seq<Descriptor>) {
    && Mapped(frames, v, offset) && Denoted(ds) == Physical(frames, v, offset)
    && forall i :: 0 <= i < |ds| ==> ds[i].count < COUNTS && !ds[i].interrupt
  }

  lemma NewRegion(frames: Mapping, v: nat, offset: nat, ds: seq<Descriptor>, d: Descriptor)
    requires Described(frames, v, offset, ds) && Get(frames, v + offset) == Some(d.base)
    requires d.count + 1 <= PAGE - (v + offset) % PAGE && !d.interrupt
    ensures Described(frames, v, offset + (d.count + 1), ds + [d])
  {
    DenotedMore(ds, d);
    PageEnds(v + offset, d.count + 1);
    hide Get, Denoted, Mapped;
    WithinPage(frames, v + offset, d.count + 1);
    PhysicalSum(frames, v, offset, d.count + 1);
  }

  lemma PageEnds(v: nat, n: nat)
    requires n <= PAGE - v % PAGE
    ensures n <= PAGE
  {
  }

  lemma LongerRegion(frames: Mapping, v: nat, offset: nat, ds: seq<Descriptor>, d: Descriptor, n: nat)
    requires Described(frames, v, offset, ds + [d]) && Get(frames, v + offset) == Some(d.base + d.count + 1)
    requires n <= PAGE - (v + offset) % PAGE && d.count + n < COUNTS
    ensures Described(frames, v, offset + n, ds + [d.(count := d.count + n)])
  {
    DenotedLonger(ds, d, n);
    WithinPage(frames, v + offset, n);
    PhysicalSum(frames, v, offset, n);
    assert forall i :: 0 <= i < |ds| ==> (ds + [d])[i] == ds[i];
  }

  // ---------------------------------------------------------------- how many descriptors it takes

  // Pages that a buffer touches.
  ghost function PagesOf(v: nat, size: nat): nat {
    if size == 0 then 0 else (v % 4096 + size + 4095) / 4096
  }

  // The j-th page of the buffer at v lies right behind the one before.  The first page does not count as
  // the one before if the buffer begins within it.
  ghost predicate Follows(frames: Mapping, v: nat, j: nat)
    requires j > 0
  {
    var f, g := frames(v / 4096 + j - 1), frames(v / 4096 + j);
    f.Some? && g.Some? && g.value == f.value + 1 && (j == 1 ==> v % 4096 == 0)
  }

  // Pages in a row that end with the j-th, each right behind the one before.
  ghost function InARow(frames: Mapping, v: nat, j: nat): nat {
    if j == 0 || !Follows(frames, v, j) then 1 else InARow(frames, v, j - 1) + 1
  }

  // At page j another descriptor is needed: it does not follow on, or those before fill up descriptors, with
  // 1024 pages, 4 MiB, in each.
  ghost predicate BreaksAt(frames: Mapping, v: nat, j: nat)
    requires j > 0
  {
    !Follows(frames, v, j) || InARow(frames, v, j - 1) % 1024 == 0
  }

  // The breaks within the first n pages.
  ghost function Breaks(frames: Mapping, v: nat, n: nat): nat {
    if n <= 1 then 0 else Breaks(frames, v, n - 1) + if BreaksAt(frames, v, n - 1) then 1 else 0
  }

  lemma {:induction false} MoreBreaks(frames: Mapping, v: nat, m: nat, n: nat)
    requires m <= n
    ensures Breaks(frames, v, m) <= Breaks(frames, v, n)
  {
    if m < n {
      MoreBreaks(frames, v, m, n - 1);
    }
  }

  ghost predicate Consecutive(frames: Mapping, v: nat, n: nat, f: nat) {
    forall i :: v / 4096 <= i < v / 4096 + n ==> frames(i) == Some(f + (i - v / 4096))
  }

  lemma {:induction false} ConsecutiveRow(frames: Mapping, v: nat, n: nat, f: nat, j: nat)
    requires Consecutive(frames, v, n, f) && j < n
    ensures InARow(frames, v, j) == if v % 4096 == 0 || j == 0 then j + 1 else j
    ensures j > 0 ==> (Follows(frames, v, j) <==> j > 1 || v % 4096 == 0)
  {
    if j > 0 {
      ConsecutiveRow(frames, v, n, f, j - 1);
      assert frames(v / 4096 + j - 1) == Some(f + (j - 1)) && frames(v / 4096 + j) == Some(f + j);
    }
  }

  // A buffer on consecutive frames breaks once for every 4 MiB that are filled, and once more behind its
  // first page if it begins within that.
  lemma {:induction false} ConsecutiveBreaks(frames: Mapping, v: nat, n: nat, f: nat)
    requires Consecutive(frames, v, n, f)
    ensures Breaks(frames, v, n) ==
            if n <= 1 then 0 else if v % 4096 == 0 then (n - 1) / 1024 else 1 + (n - 2) / 1024
  {
    if n > 1 {
      ConsecutiveBreaks(frames, v, n - 1, f);
      ConsecutiveRow(frames, v, n, f, n - 1);
      ConsecutiveRow(frames, v, n, f, n - 2);
      hide InARow, Consecutive, Follows;
      NextThousand(n - 1);
      if n > 2 {
        NextThousand(n - 2);
      }
    }
  }

  lemma NextThousand(k: nat)
    requires k > 0
    ensures k / 1024 == (k - 1) / 1024 + if k % 1024 == 0 then 1 else 0
  {
  }

  // ---------------------------------------------------------------- the loop

  // The test of lines 624-627: the page at `physical` is appended to the region d, in which the chunk at
  // `last` came last.
  predicate Appends(last: nat, physical: nat, d: Descriptor) {
    last + PAGE == physical && d.count + PAGE < COUNTS
  }

  // The place of the loop before page j of the buffer.
  ghost predicate AtPage(v: nat, size: nat, offset: nat, j: nat) {
    && offset <= size && (offset == 0 <==> j == 0) && j <= offset
    && (offset < size && j > 0 ==> v + offset == (v / PAGE + j) * PAGE)
    && (offset == size ==> j == PagesOf(v, size))
  }

  // The last chunk came at prev, in descriptor d, which holds as many pages in a row as it could take.
  ghost predicate LastIn(frames: Mapping, v: nat, size: nat, prev: nat, offset: nat, j: nat, last: nat, d: Descriptor) {
    && prev < size && offset == prev + Chunk(v, size, prev) && j > 0
    && (v + prev) / PAGE == v / PAGE + j - 1 && ((v + prev) % PAGE == 0 <==> j > 1 || v % PAGE == 0)
    && Get(frames, v + prev) == Some(last)
    && d.base + d.count + 1 == last + (offset - prev) && d.count < COUNTS
    && (offset < size && (j > 1 || v % PAGE == 0) ==>
          d.count + 1 == ((InARow(frames, v, j - 1) - 1) % 1024 + 1) * PAGE)
  }

  lemma NextPage(v: nat, size: nat, offset: nat, j: nat)
    requires AtPage(v, size, offset, j) && offset < size
    ensures AtPage(v, size, offset + Chunk(v, size, offset), j + 1)
    ensures (v + offset) / PAGE == v / PAGE + j
    ensures (v + offset) % PAGE == 0 <==> j > 0 || v % PAGE == 0
    ensures offset + Chunk(v, size, offset) < size && (j > 0 || v % PAGE == 0) ==> Chunk(v, size, offset) == PAGE
  {
  }

  // The test passes exactly if there is no break.
  lemma {:induction false} AppendsIff(frames: Mapping, v: nat, size: nat, prev: nat, offset: nat, j: nat, last: nat,
      d: Descriptor, physical: nat)
    requires AtPage(v, size, offset, j) && offset < size && LastIn(frames, v, size, prev, offset, j, last, d)
    requires Get(frames, v + offset) == Some(physical)
    ensures Appends(last, physical, d) <==> !BreaksAt(frames, v, j)
    ensures Appends(last, physical, d) ==>
              && d.base + d.count + 1 == physical && d.count + PAGE < COUNTS
              && d.count + 1 == ((InARow(frames, v, j - 1) - 1) % 1024 + 1) * PAGE
  {
    NextPage(v, size, offset, j);
    if Appends(last, physical, d) {
      FollowsOn(frames, v, size, prev, offset);
    }
    assert frames((v + offset) / PAGE).Some? && frames((v + prev) / PAGE).Some?;
  }

  // On success the first descriptors of the table denote exactly the bytes of the buffer, in order, and there
  // is one more of them than breaks.  It fails for a byte without memory, or for more than 15 breaks.
  method SetupPhysicalRegion(frames: Mapping, table: array<Descriptor>, v: nat, size: nat) returns (r: Result)
    requires table.Length == ENTRIES
    modifies table
    ensures r.Ok? ==> r.regions <= 16 && r.regions <= table.Length && Described(frames, v, size, table[..r.regions])
    ensures r.Ok? ==> r.regions == if size == 0 then 0 else Breaks(frames, v, PagesOf(v, size)) + 1
    ensures r == Err(InvalidMemory) ==> !Mapped(frames, v, size)
    ensures r == Err(FragmentedMemory) ==> Breaks(frames, v, PagesOf(v, size)) >= 16
    ensures r.Ok? <==> Mapped(frames, v, size) && Breaks(frames, v, PagesOf(v, size)) < 16
  {
    hide Described, Get, Mapped, Breaks, BreaksAt, InARow, Follows, LastIn, AtPage, PagesOf, Appends;
    var last: Option<nat> := None;
    var region := -1;
    var offset := 0;
    ghost var prev: nat := 0;
    ghost var j: nat := 0;
    NothingDescribed(frames, v);
    AtStart(frames, v, size);
    while offset < size
      invariant -1 <= region < ENTRIES && offset <= size && AtPage(v, size, offset, j)
      invariant region == if j == 0 then -1 else Breaks(frames, v, j)
      invariant Described(frames, v, offset, table[..region + 1])
      invariant j > 0 <==> last.Some?
      invariant last.Some? ==> LastIn(frames, v, size, prev, offset, j, last.value, table[region])
    {
      var physical := Get(frames, v + offset);
      if physical.None? {
        Unmapped(frames, v, size, offset);
        return Err(InvalidMemory);
      }
      var n := Chunk(v, size, offset);
      NextPage(v, size, offset, j);
      if last.Some? {
        AppendsIff(frames, v, size, prev, offset, j, last.value, table[region], physical.value);
        OneMorePage(frames, v, j);
      }
      if last.Some? && region >= 0 && Appends(last.value, physical.value, table[region]) {
        assert table[..region + 1] == table[..region] + [table[region]];
        LongerRegion(frames, v, offset, table[..region], table[region], n);
        LongerInARow(frames, v, j);
        NowLast(frames, v, size, offset, j, physical.value, n, table[region].(count := table[region].count + n));
        table[region] := table[region].(count := (table[region].count + n) % COUNTS);
        assert table[..region + 1] == table[..region] + [table[region]];
      } else {
        region := region + 1;
        if region >= ENTRIES {
          TooManyBreaks(frames, v, size, offset, j);
          return Err(FragmentedMemory);
        }
        NewInARow(frames, v, j);
        NowLast(frames, v, size, offset, j, physical.value, n, Descriptor(physical.value, n - 1, false));
        NewRegion(frames, v, offset, table[..region], Descriptor(physical.value, n - 1, false));
        table[region] := Descriptor(physical.value, n - 1, false);
        assert table[..region + 1] == table[..region] + [table[region]];
      }
      last := physical;
      prev := offset;
      offset := offset + n;
      j := j + 1;
    }
    AtEnd(frames, v, size, j);
    DescribedIsMapped(frames, v, size, table[..region + 1]);
    return Ok(region + 1);
  }

  lemma AtStart(frames: Mapping, v: nat, size: nat)
    ensures AtPage(v, size, 0, 0) && Breaks(frames, v, 1) == 0
  {
  }

  lemma AtEnd(frames: Mapping, v: nat, size: nat, j: nat)
    requires AtPage(v, size, size, j)
    ensures j == PagesOf(v, size) && (j == 0 ==> size == 0 && Breaks(frames, v, j) == 0) && (size == 0 ==> j == 0)
  {
  }

  lemma DescribedIsMapped(frames: Mapping, v: nat, n: nat, ds: seq<Descriptor>)
    requires Described(frames, v, n, ds)
    ensures Mapped(frames, v, n)
  {
  }

  lemma OneMorePage(frames: Mapping, v: nat, j: nat)
    requires j > 0
    ensures Breaks(frames, v, j + 1) == Breaks(frames, v, j) + if BreaksAt(frames, v, j) then 1 else 0
  {
  }

  lemma {:induction false} TooManyBreaks(frames: Mapping, v: nat, size: nat, offset: nat, j: nat)
    requires AtPage(v, size, offset, j) && offset < size
    ensures Breaks(frames, v, j + 1) <= Breaks(frames, v, PagesOf(v, size))
  {
    MoreBreaks(frames, v, j + 1, PagesOf(v, size));
  }

  // What is known of a chunk of n bytes that was appended, or began a region.
  lemma {:induction false} NowLast(frames: Mapping, v: nat, size: nat, offset: nat, j: nat, physical: nat, n: nat,
      d: Descriptor)
    requires AtPage(v, size, offset, j) && offset < size && n == Chunk(v, size, offset)
    requires Get(frames, v + offset) == Some(physical)
    requires d.base + d.count + 1 == physical + n && d.count < COUNTS
    requires offset + n < size && (j > 0 || v % PAGE == 0) ==>
               d.count + 1 == ((InARow(frames, v, j) - 1) % 1024 + 1) * PAGE
    ensures LastIn(frames, v, size, offset, offset + n, j + 1, physical, d)
  {
    NextPage(v, size, offset, j);
    hide Get, InARow, Chunk;
  }

  // A region that begins at page j holds one page.
  lemma {:induction false} NewInARow(frames: Mapping, v: nat, j: nat)
    requires j > 0 ==> BreaksAt(frames, v, j)
    ensures (InARow(frames, v, j) - 1) % 1024 == 0
  {
  }

  // One that goes on there holds one page more, and is not full yet.
  lemma {:induction false} LongerInARow(frames: Mapping, v: nat, j: nat)
    requires j > 0 && !BreaksAt(frames, v, j)
    ensures (InARow(frames, v, j) - 1) % 1024 == (InARow(frames, v, j - 1) - 1) % 1024 + 1
  {
  }

  // So a buffer on consecutive frames is never too fragmented up to 15 times 4 MiB, and one that begins with
  // a page takes a single descriptor up to 4 MiB.
  lemma {:induction false} ConsecutiveFits(frames: Mapping, v: nat, size: nat, f: nat)
    requires Consecutive(frames, v, PagesOf(v, size), f)
    ensures size <= 15 * 0x40_0000 ==> Breaks(frames, v, PagesOf(v, size)) < 16
    ensures 0 < size <= 0x40_0000 && v % 4096 == 0 ==> Breaks(frames, v, PagesOf(v, size)) == 0
  {
    ConsecutiveBreaks(frames, v, PagesOf(v, size), f);
  }

  lemma NothingDescribed(frames: Mapping, v: nat)
    ensures Described(frames, v, 0, [])
  {
  }

  lemma Unmapped(frames: Mapping, v: nat, size: nat, offset: nat)
    requires offset < size && Get(frames, v + offset).None?
    ensures !Mapped(frames, v, size)
  {
  }

  // The controller finds byte i of the buffer at byte i of what the descriptors denote, so that the data
  // arrive in order, and every count fits its field.
  lemma ByteByByte(frames: Mapping, v: nat, size: nat, ds: seq<Descriptor>, i: nat)
    requires Described(frames, v, size, ds) && i < size
    ensures |Denoted(ds)| == size && frames((v + i) / 4096).Some?
    ensures Denoted(ds)[i] == frames((v + i) / 4096).value * 4096 + (v + i) % 4096
  {
    assert Get(frames, v + i).Some?;
  }
}
