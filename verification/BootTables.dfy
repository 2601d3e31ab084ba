/** The page tables on which the kernel starts: setup_paging, src/low/init/start.cpp:93-114, and
    map_high_kernel_to_high_memory, src/low/init/main.cpp:92-198. */
module BootTables {
  import opened Common
  import opened PageTables
  import opened Paging

  // The frames of the five tables, and the first frame of the high kernel.
  datatype Image = Image(l4: nat, l3: nat, l2: nat, high3: nat, high2: nat, kernel: nat)

  ghost predicate Distinct(b: Image) {
    && b.l4 != b.l3 && b.l4 != b.l2 && b.l4 != b.high3 && b.l4 != b.high2
    && b.l3 != b.l2 && b.l3 != b.high3 && b.l3 != b.high2
    && b.l2 != b.high3 && b.l2 != b.high2 && b.high3 != b.high2
  }

  ghost predicate IsBootTable(b: Image, f: nat) {
    f == b.l4 || f == b.l3 || f == b.l2 || f == b.high3 || f == b.high2
  }

  function LinkTo(g: nat): Entry {
    ZERO.(present := true, write := true, frame := g)
  }

  // 2 MiB pages in a row.
  function LargePage(first: nat, j: nat): Entry {
    ZERO.(present := true, write := true, pageSize := true, frame := first + j * 512)
  }

  function LargePages(first: nat): (t: seq<Entry>)
    ensures |t| == 512 && forall j :: 0 <= j < 512 ==> t[j] == LargePage(first, j)
  {
    seq(512, j requires 0 <= j < 512 => LargePage(first, j))
  }

  // 32 TiB is under root entry 64.
  const HIGH: nat := 64

  function BootMemory(b: Image): Memory {
    map[b.l4 := Cleared()[0 := LinkTo(b.l3)][HIGH := LinkTo(b.high3)],
        b.l3 := Cleared()[0 := LinkTo(b.l2)],
        b.l2 := LargePages(0),
        b.high3 := Cleared()[0 := LinkTo(b.high2)],
        b.high2 := LargePages(b.kernel)]
  }

  // Memory in which nothing but the five tables matters.
  ghost predicate Booted(mem: Memory, b: Image) {
    Distinct(b) && forall f: nat :: IsBootTable(b, f) ==> f in mem && mem[f] == BootMemory(b)[f]
  }

  // Entries of which only the bits for present and writeable are set, and that of a large page.
  ghost predicate IsLink(e: Entry, frame: nat) {
    e == Entry(true, true, false, false, false, false, false, false, false, false, frame)
  }

  ghost predicate IsLargePage(e: Entry, frame: nat) {
    e == Entry(true, true, false, false, false, false, false, true, false, false, frame)
  }

  // setup_paging: the tables lie in cleared memory; the first GiB is mapped to itself.
  method SetupPaging(b: Image, mem: Memory) returns (mem': Memory)
    requires Distinct(b) && forall f: nat :: IsBootTable(b, f) ==> f in mem && mem[f] == Cleared()
    ensures LowReady(mem', b)
    ensures b.l4 in mem' && |mem'[b.l4]| == 512 && IsLink(mem'[b.l4][0], b.l3)
    ensures b.l3 in mem' && |mem'[b.l3]| == 512 && IsLink(mem'[b.l3][0], b.l2)
    ensures b.l2 in mem' && |mem'[b.l2]| == 512 && forall j :: 0 <= j < 512 ==> IsLargePage(mem'[b.l2][j], j * 512)
    ensures forall f :: f in mem && !IsBootTable(b, f) ==> f in mem' && mem'[f] == mem[f]
  {
    mem' := SetEntry(SetEntry(mem, b.l4, 0, LinkTo(b.l3)), b.l3, 0, LinkTo(b.l2));
    var t := mem'[b.l2];
    var j := 0;
    while j < 512
      invariant j <= 512 && |t| == 512
      invariant forall k :: 0 <= k < 512 ==> t[k] == if k < j then LargePage(0, k) else ZERO
    {
      t := t[j := LargePage(0, j)];
      j := j + 1;
    }
    assert t == LargePages(0);
    mem' := mem'[b.l2 := t];
  }

  // What the first part of the boot code leaves in the tables.
  function LowTable(b: Image, f: nat): seq<Entry> {
    if f == b.l4 then Cleared()[0 := LinkTo(b.l3)]
    else if f == b.l3 then Cleared()[0 := LinkTo(b.l2)]
    else if f == b.l2 then LargePages(0)
    else Cleared()
  }

  ghost predicate LowReady(mem: Memory, b: Image) {
    Distinct(b) && forall f: nat :: IsBootTable(b, f) ==> f in mem && mem[f] == LowTable(b, f)
  }

  // map_high_kernel_to_high_memory: two more tables under root entry 64, if there are none yet.
  method MapHighKernel(b: Image, mem: Memory) returns (mem': Memory)
    requires LowReady(mem, b)
    ensures Booted(mem', b)
    ensures b.l4 in mem' && |mem'[b.l4]| == 512 && IsLink(mem'[b.l4][64], b.high3)
    ensures b.high3 in mem' && |mem'[b.high3]| == 512 && IsLink(mem'[b.high3][0], b.high2)
    ensures b.high2 in mem' && |mem'[b.high2]| == 512
    ensures forall j :: 0 <= j < 512 ==> IsLargePage(mem'[b.high2][j], b.kernel + j * 512)
    ensures forall f :: f in mem && !IsBootTable(b, f) ==> f in mem' && mem'[f] == mem[f]
  {
    assert IsBootTable(b, b.l4) && IsBootTable(b, b.high3) && IsBootTable(b, b.high2);
    mem' := mem;
    if !mem'[b.l4][HIGH].present {
      mem' := SetEntry(mem', b.l4, HIGH, LinkTo(b.high3))[b.high3 := Cleared()];
    }
    var l3 := mem'[b.l4][HIGH].frame;
    if !mem'[l3][0].present {
      mem' := SetEntry(mem', l3, 0, LinkTo(b.high2))[b.high2 := Cleared()];
    }
    var l2 := mem'[l3][0].frame;
    var t := mem'[l2];
    var j := 0;
    while j < 512
      invariant j <= 512 && |t| == 512
      invariant forall k :: 0 <= k < j ==> t[k] == LargePage(b.kernel, k)
    {
      t := t[j := LargePage(b.kernel, j)];
      j := j + 1;
    }
    assert t == LargePages(b.kernel);
    mem' := mem'[l2 := t];
  }

  function BootTableAt(b: Image, p: seq<nat>): Option<nat> {
    if p == [] then Some(b.l4)
    else if p == [0] then Some(b.l3)
    else if p == [0, 0] then Some(b.l2)
    else if p == [HIGH] then Some(b.high3)
    else if p == [HIGH, 0] then Some(b.high2)
    else None
  }

  function BootSlot(b: Image, f: nat, i: nat): Entry {
    if f == b.l4 then if i == 0 then LinkTo(b.l3) else if i == HIGH then LinkTo(b.high3) else ZERO
    else if f == b.l3 then if i == 0 then LinkTo(b.l2) else ZERO
    else if f == b.high3 then if i == 0 then LinkTo(b.high2) else ZERO
    else LargePage(if f == b.l2 then 0 else b.kernel, i)
  }

  function BootEntry(b: Image, p: seq<nat>): Option<Entry>
    requires p != []
  {
    var i := p[|p| - 1];
    match BootTableAt(b, p[..|p| - 1])
    case None => None
    case Some(f) => if i < 512 then Some(BootSlot(b, f, i)) else None
  }

  lemma BootHeld(mem: Memory, b: Image, f: nat, i: nat)
    requires Booted(mem, b) && IsBootTable(b, f)
    ensures f in mem && |mem[f]| == 512
    ensures i < 512 ==> mem[f][i] == BootSlot(b, f, i)
  {
  }

  // The tables and entries that the code has set up are these and no others.
  lemma {:induction false} BootTreeAt(mem: Memory, b: Image, p: seq<nat>)
    requires Booted(mem, b)
    ensures TableAt(mem, b.l4, p) == BootTableAt(b, p)
    ensures p != [] ==> EntryAt(mem, b.l4, p) == BootEntry(b, p)
    decreases |p|
  {
    if p != [] {
      var up, i := p[..|p| - 1], p[|p| - 1];
      assert p == up + [i];
      BootTreeAt(mem, b, up);
      EntryIn(mem, b.l4, p);
      BootLinks(b, p);
      hide TableAt, EntryAt, Booted, BootTableAt, BootSlot;
      if BootTableAt(b, up).Some? {
        BootTableIs(b, up);
        BootHeld(mem, b, BootTableAt(b, up).value, i);
      }
    }
  }

  // A path leads to a table exactly if its entry links.
  lemma BootLinks(b: Image, p: seq<nat>)
    requires Distinct(b) && p != []
    ensures BootTableAt(b, p) ==
            match BootEntry(b, p)
            case None => None
            case Some(e) => if Links(e, |p| - 1) then Some(e.frame) else None
  {
    var up, i := p[..|p| - 1], p[|p| - 1];
    assert p == up + [i];
    if |p| == 1 {
      assert p == [i];
    } else if |p| == 2 {
      assert p == [p[0], i] && up == [p[0]];
    } else if |p| == 3 {
      assert up == [p[0], p[1]];
    }
  }

  // They are a tree outside of the free frames, and root entries other than 0 and 64 are empty.
  lemma {:induction false} BootTree(mem: Memory, b: Image, free: set<nat>)
    requires Booted(mem, b) && forall f: nat :: IsBootTable(b, f) ==> f !in free
    ensures Tree(mem, b.l4, free)
    ensures forall k :: 0 <= k < 512 && k != 0 && k != 64 ==> Slot(mem, b.l4, [k]).None?
    ensures forall p :: |p| <= 3 && TableAt(mem, b.l4, p).Some? ==> IsBootTable(b, TableAt(mem, b.l4, p).value)
  {
    forall p: seq<nat>
      ensures TableAt(mem, b.l4, p) == BootTableAt(b, p)
      ensures BootTableAt(b, p).Some? ==> IsBootTable(b, BootTableAt(b, p).value)
    {
      BootTreeAt(mem, b, p);
      BootTableIs(b, p);
    }
    forall f: nat | IsBootTable(b, f)
      ensures f in mem && |mem[f]| == 512
    {
      BootHeld(mem, b, f, 0);
    }
    hide TableAt, EntryAt, BootTableAt, BootEntry;
    forall p, q
      ensures BootTableAt(b, p).Some? && BootTableAt(b, p) == BootTableAt(b, q) ==> p == q
    {
      BootTablesApart(b, p, q);
    }
    forall p | p != []
      ensures EntryAt(mem, b.l4, p).Some? && !EntryAt(mem, b.l4, p).value.present ==>
                EntryAt(mem, b.l4, p).value == ZERO
      ensures |p| == 1 && p != [0] && p != [HIGH] && EntryAt(mem, b.l4, p).Some? ==> EntryAt(mem, b.l4, p).value == ZERO
    {
      BootTreeAt(mem, b, p);
      BootEntryIs(b, p);
    }
    hide BootSlot, Booted;
    assert forall k: nat :: k != 0 ==> [k] != [0];
    assert forall k: nat :: k != HIGH ==> [k] != [HIGH];
  }

  // Every entry that is present grants the kernel everything and the user nothing.
  lemma {:induction false} BootCovered(mem: Memory, b: Image)
    requires Booted(mem, b)
    ensures Covered(mem, b.l4)
  {
    hide Booted;
    forall q: seq<nat> | 2 <= |q| <= 4 && EntryAt(mem, b.l4, q).Some? && EntryAt(mem, b.l4, q).value.present
      ensures var up := EntryAt(mem, b.l4, q[..|q| - 1]);
              && up.Some?
              && (EntryAt(mem, b.l4, q).value.write ==> up.value.write)
              && (EntryAt(mem, b.l4, q).value.user ==> up.value.user)
    {
      BootTreeAt(mem, b, q);
      BootTreeAt(mem, b, q[..|q| - 1]);
      BootDistinct(mem, b);
      BootEntryIs(b, q);
    }
  }

  lemma BootDistinct(mem: Memory, b: Image)
    requires Booted(mem, b)
    ensures Distinct(b)
  {
  }

  lemma BootTableIs(b: Image, p: seq<nat>)
    ensures BootTableAt(b, p).Some? ==> IsBootTable(b, BootTableAt(b, p).value)
  {
  }

  lemma BootTablesApart(b: Image, p: seq<nat>, q: seq<nat>)
    requires Distinct(b)
    ensures BootTableAt(b, p).Some? && BootTableAt(b, p) == BootTableAt(b, q) ==> p == q
  {
  }

  lemma BootEntryIs(b: Image, p: seq<nat>)
    requires Distinct(b) && p != []
    ensures BootEntry(b, p).Some? && !BootEntry(b, p).value.present ==> BootEntry(b, p).value == ZERO
    ensures BootEntry(b, p).Some? && BootEntry(b, p).value.present ==>
              && BootEntry(b, p).value.write && !BootEntry(b, p).value.user
              && (|p| >= 2 ==> BootEntry(b, p[..|p| - 1]).Some? && BootEntry(b, p[..|p| - 1]).value.write)
    ensures |p| == 1 && p != [0] && p != [HIGH] && BootEntry(b, p).Some? ==> BootEntry(b, p).value == ZERO
  {
    if |p| >= 2 && BootTableAt(b, p[..|p| - 1]).Some? {
      var up := p[..|p| - 1];
      if |up| == 1 {
        assert up[..0] == [];
      } else {
        assert |up| == 2 && up[..1] == [up[0]];
      }
    }
    if |p| == 1 {
      assert p == [p[0]] && p[..0] == [];
    }
  }

  // ---------------------------------------------------------------- what the processor finds there

  // The first GiB of memory twice over: at its own addresses, and, from the high kernel on, at 32 TiB.
  // Nothing else is mapped.
  lemma {:induction false} BootWalk(mem: Memory, b: Image, page: seq<nat>)
    requires Booted(mem, b) && IsPage(page)
    ensures Walk(mem, b.l4, 0, page) ==
            if page[1] != 0 || (page[0] != 0 && page[0] != 64) then None
            else
              Some(Access((if page[0] == 0 then 0 else b.kernel) + page[2] * 512 + page[3], true, false, false, false))
  {
    BootCovered(mem, b);
    BootDistinct(mem, b);
    WalkIsEntries(mem, b.l4, page);
    EffectiveRights(mem, b.l4, page);
    hide Booted, Walk, TableAt, EntryAt, Covered;
    Prefixes(page);
    BootTreeAt(mem, b, page[..2]);
    BootTreeAt(mem, b, page[..3]);
    BootTreeAt(mem, b, page);
    BootWay(b, page);
  }

  // The entries on the way to a page.
  lemma BootWay(b: Image, page: seq<nat>)
    requires Distinct(b) && IsPage(page)
    ensures var first := page[0] == 0 || page[0] == HIGH;
            && BootEntry(b, page[..2]) ==
               (if !first then None
                else if page[1] != 0 then Some(ZERO)
                else Some(LinkTo(if page[0] == 0 then b.l2 else b.high2)))
            && BootEntry(b, page[..3]) ==
               (if !first || page[1] != 0 then None
                else Some(LargePage(if page[0] == 0 then 0 else b.kernel, page[2])))
            && BootEntry(b, page).None?
  {
    Prefixes(page);
    assert page[..1] == [page[0]] && page[..2] == [page[0], page[1]];
    assert |page[..3]| == 3;
  }

  // ---------------------------------------------------------------- large pages taken for tables

  // On these tables, map of any page of the first GiB ends in the first frame of its 2 MiB page, where it
  // writes a table entry into memory in use; the page stays mapped to the frame it had.  So does unmap.
  lemma {:induction false} LargeTakenForTable(mem: Memory, b: Image, page: seq<nat>, frame: nat, f: Flags)
    requires Booted(mem, b) && IsPage(page) && page[0] == page[1] == 0
    requires page[2] * 512 in mem && |mem[page[2] * 512]| == 512 && !IsBootTable(b, page[2] * 512)
    ensures var t := page[2] * 512;
            && Steps(mem, b.l4, page) == Some(t) && TableAt(mem, b.l4, page[..3]).None?
            && Frame(mem, b.l4, [0, 0, page[2], 0]) == Some(t)
            && Frame(SetEntry(mem, t, page[3], LeafEntry(mem[t][page[3]], frame, f)), b.l4, page) == Some(t + page[3])
            && Frame(MadeAbsent(mem, Some(t), page[3]), b.l4, page) == Some(t + page[3])
  {
    hide Booted, Walk, Frame, Steps, TableAt, IsBootTable, LeafEntry, SetEntry, LinkTo;
    StillBooted(mem, b, page[2] * 512, page[3], LeafEntry(mem[page[2] * 512][page[3]], frame, f));
    StillBooted(mem, b, page[2] * 512, page[3], mem[page[2] * 512][page[3]].(present := false));
    LowPage(mem, b, [0, 0, page[2], 0]);
    LowPage(SetEntry(mem, page[2] * 512, page[3], LeafEntry(mem[page[2] * 512][page[3]], frame, f)), b, page);
    LowPage(SetEntry(mem, page[2] * 512, page[3], mem[page[2] * 512][page[3]].(present := false)), b, page);
    BootSteps(mem, b, page);
  }

  lemma StillBooted(mem: Memory, b: Image, t: nat, i: nat, e: Entry)
    requires Booted(mem, b) && t in mem && i < |mem[t]| && !IsBootTable(b, t)
    ensures Booted(SetEntry(mem, t, i, e), b)
  {
  }

  lemma LowPage(mem: Memory, b: Image, page: seq<nat>)
    requires Booted(mem, b) && |page| == 4 && page[0] == page[1] == 0 && page[2] < 512 && page[3] < 512
    ensures Frame(mem, b.l4, page) == Some(page[2] * 512 + page[3])
  {
    hide Walk, Booted;
    BootWalk(mem, b, page);
  }

  lemma {:induction false} BootSteps(mem: Memory, b: Image, page: seq<nat>)
    requires Booted(mem, b) && IsPage(page) && page[0] == page[1] == 0
    ensures Steps(mem, b.l4, page) == Some(page[2] * 512) && TableAt(mem, b.l4, page[..3]).None?
  {
    BootHeld(mem, b, b.l4, 0);
    BootHeld(mem, b, b.l3, 0);
    BootHeld(mem, b, b.l2, page[2]);
    BootTreeAt(mem, b, page[..3]);
  }

  // The turns of map's loop before that find these three entries, and leave them as they are if nothing is
  // asked for that they do not grant.
  lemma BootTurns(mem: Memory, b: Image, page: seq<nat>)
    requires Booted(mem, b) && IsPage(page) && page[0] == page[1] == 0
    ensures var f := Flags(true, false, false, false);
            forall e :: e == mem[b.l4][0] || e == mem[b.l3][0] || e == mem[b.l2][page[2]] ==>
              e.present && Widen(e, e.frame, f) == e
  {
    BootHeld(mem, b, b.l4, 0);
    BootHeld(mem, b, b.l3, 0);
    BootHeld(mem, b, b.l2, page[2]);
  }
}
