/** map, unmap and get: src/high/memory/paging.cpp:13-149.

    The frame allocator is the set of free frames, from which any may be taken.  The window at 64 TiB
    through which the kernel reaches physical memory is what turns a frame number into a table here. */
module Paging {
  import opened Common
  import opened PageTables

  datatype Flags = Flags(writeable: bool, user: bool, writeThrough: bool, cacheDisabled: bool)

  // No large page on the way: map and unmap take every present entry for a table.
  ghost predicate SmallPath(mem: Memory, root: nat, page: seq<nat>)
    requires |page| == 4
  {
    !Large(EntryAt(mem, root, page[..2])) && !Large(EntryAt(mem, root, page[..3]))
  }

  // An upper entry with its flags widened.
  function Widen(e: Entry, frame: nat, f: Flags): Entry {
    e.(present := true, frame := frame, write := e.write || f.writeable, user := e.user || f.user,
       writeThrough := e.writeThrough || f.writeThrough, cacheDisabled := e.cacheDisabled || f.cacheDisabled)
  }

  function LeafEntry(e: Entry, frame: nat, f: Flags): Entry {
    e.(present := true, frame := frame, write := f.writeable, user := f.user,
       writeThrough := f.writeThrough, cacheDisabled := f.cacheDisabled)
  }

  // An upper entry before and after map, field by field: it leads on, where it led already or to a new
  // table, and each of the four rights and cache settings asked for is set in addition to its own.
  ghost predicate UpperSet(e: Entry, e': Entry, f: Flags) {
    && e'.present && (e.present ==> e'.frame == e.frame)
    && e'.write == (e.write || f.writeable) && e'.user == (e.user || f.user)
    && e'.writeThrough == (e.writeThrough || f.writeThrough)
    && e'.cacheDisabled == (e.cacheDisabled || f.cacheDisabled)
    && e'.accessed == e.accessed && e'.dirty == e.dirty && e'.pageSize == e.pageSize
    && e'.global == e.global && e'.full == e.full
  }

  // The page's own entry: what is asked for, and nothing else of it changes.
  ghost predicate LastSet(e: Entry, e': Entry, frame: nat, f: Flags) {
    && e'.present && e'.frame == frame && e'.write == f.writeable && e'.user == f.user
    && e'.writeThrough == f.writeThrough && e'.cacheDisabled == f.cacheDisabled
    && e'.accessed == e.accessed && e'.dirty == e.dirty && e'.pageSize == e.pageSize
    && e'.global == e.global && e'.full == e.full
  }

  // The entry at a path, or an entry of a table of zeros if there is no table yet.
  ghost function EntryOrZero(mem: Memory, root: nat, path: seq<nat>): Entry
    requires path != []
  {
    if EntryAt(mem, root, path).Some? then EntryAt(mem, root, path).value
    else Entry(false, false, false, false, false, false, false, false, false, false, 0)
  }

  // The first d entries on the way to a page are set; those behind are as before, or in new tables of zeros.
  ghost predicate WaySet(mem: Memory, mem': Memory, root: nat, page: seq<nat>, d: nat, f: Flags)
    requires |page| == 4
  {
    && (forall k :: 1 <= k <= d && k <= 3 ==>
          && EntryAt(mem', root, page[..k]).Some?
          && UpperSet(EntryOrZero(mem, root, page[..k]), EntryAt(mem', root, page[..k]).value, f))
    && (forall k :: d < k <= 4 ==> EntryOrZero(mem', root, page[..k]) == EntryOrZero(mem, root, page[..k]))
  }

  lemma WayStarts(mem: Memory, root: nat, page: seq<nat>, f: Flags)
    requires |page| == 4
    ensures WaySet(mem, mem, root, page, 0, f)
  {
  }

  lemma WayTurn(mem0: Memory, mem: Memory, mem': Memory, root: nat, page: seq<nat>, d: nat, f: Flags)
    requires |page| == 4 && d < 3 && WaySet(mem0, mem, root, page, d, f) && Agrees(mem, mem', root, page[..d + 1])
    requires EntryAt(mem, root, page[..d + 1]).Some? && EntryAt(mem', root, page[..d + 1]).Some?
    requires UpperSet(EntryAt(mem, root, page[..d + 1]).value, EntryAt(mem', root, page[..d + 1]).value, f)
    ensures WaySet(mem0, mem', root, page, d + 1, f)
  {
    hide EntryAt, UpperSet;
    forall k | 1 <= k <= 4 && k != d + 1
      ensures EntryOrZero(mem', root, page[..k]) == EntryOrZero(mem, root, page[..k])
      ensures EntryAt(mem, root, page[..k]).Some? ==> EntryAt(mem', root, page[..k]) == EntryAt(mem, root, page[..k])
    {
      assert |page[..k]| == k && page[..k] != page[..d + 1];
    }
    assert EntryOrZero(mem0, root, page[..d + 1]) == EntryOrZero(mem, root, page[..d + 1]);
  }

  lemma WayEnds(mem0: Memory, mem: Memory, mem': Memory, root: nat, page: seq<nat>, frame: nat, f: Flags)
    requires |page| == 4 && WaySet(mem0, mem, root, page, 3, f)
    requires forall q :: 0 < |q| <= 4 && q != page ==> EntryAt(mem', root, q) == EntryAt(mem, root, q)
    requires EntryAt(mem, root, page[..4]).Some?
    requires EntryAt(mem', root, page) == Some(LeafEntry(EntryAt(mem, root, page[..4]).value, frame, f))
    ensures forall k :: 1 <= k <= 3 ==>
              && EntryAt(mem', root, page[..k]).Some?
              && UpperSet(EntryOrZero(mem0, root, page[..k]), EntryAt(mem', root, page[..k]).value, f)
    ensures LastSet(EntryOrZero(mem0, root, page), EntryAt(mem', root, page).value, frame, f)
  {
    hide EntryAt, UpperSet;
    assert page[..4] == page;
    forall k | 1 <= k <= 3
      ensures EntryAt(mem', root, page[..k]) == EntryAt(mem, root, page[..k])
    {
      assert |page[..k]| == k;
    }
  }

  // getPageEntry then getPage: the table an entry leads to.
  function Next(mem: Memory, table: Option<nat>, i: nat): Option<nat> {
    match table
    case None => None
    case Some(t) =>
      if t in mem && i < |mem[t]| && mem[t][i].present then Some(mem[t][i].frame) else None
  }

  // What one turn of map's loop needs: entry page[d] of table t, outside of large pages, below entries
  // that already grant what is asked for.
  ghost predicate AtLevel(mem: Memory, root: nat, free: set<nat>, t: nat, page: seq<nat>, d: nat, f: Flags) {
    && Tree(mem, root, free) && Covered(mem, root) && IsPage(page) && SmallPath(mem, root, page)
    && d <= 3 && TableAt(mem, root, page[..d]) == Some(t)
    && (d > 0 ==>
          && EntryAt(mem, root, page[..d]).Some?
          && var up := EntryAt(mem, root, page[..d]).value;
             (f.writeable ==> up.write) && (f.user ==> up.user))
  }

  // What a turn leaves behind.
  ghost predicate TurnDone(mem: Memory, mem': Memory, root: nat, free: set<nat>, next: nat, page: seq<nat>, d: nat,
      f: Flags)
    requires d < 3 && |page| == 4
  {
    && AtLevel(mem', root, free, next, page, d + 1, f)
    && Agrees(mem, mem', root, page[..d + 1]) && Widened(mem, mem', root, page[..d + 1])
  }

  // No page comes to lie in a large one.
  ghost predicate SmallKept(mem: Memory, mem': Memory, root: nat) {
    forall q :: |q| == 4 && SmallPath(mem, root, q) ==> SmallPath(mem', root, q)
  }

  lemma {:induction false} WidenTurn(mem: Memory, root: nat, free: set<nat>, t: nat, page: seq<nat>, d: nat, f: Flags)
    requires AtLevel(mem, root, free, t, page, d, f) && d < 3
    requires t in mem && page[d] < |mem[t]| && mem[t][page[d]].present
    ensures var e := mem[t][page[d]];
            && TurnDone(mem, SetEntry(mem, t, page[d], Widen(e, e.frame, f)), root, free, e.frame, page, d, f)
            && Accounted(mem, SetEntry(mem, t, page[d], Widen(e, e.frame, f)), root, free, free)
            && EntryAt(SetEntry(mem, t, page[d], Widen(e, e.frame, f)), root, page[..d + 1]) ==
               Some(Widen(e, e.frame, f))
  {
    hide Tree, Covered, TableAt, EntryAt;
    var c, e := page[..d + 1], mem[t][page[d]];
    var e' := Widen(e, e.frame, f);
    var mem' := SetEntry(mem, t, page[d], e');
    assert c == page[..d] + [page[d]] && c[..d] == page[..d];
    EntryOfTable(mem, root, page[..d], page[d]);
    EntryIsSmall(mem, root, page, d);
    SetTree(mem, root, free, page[..d], page[d], e');
    SetHere(mem, root, free, page[..d], page[d], e');
    forall q | |q| <= 4
      ensures TableAt(mem', root, q) == TableAt(mem, root, q)
      ensures q != [] && q != c ==> EntryAt(mem', root, q) == EntryAt(mem, root, q)
    {
      SetSameLink(mem, root, free, page[..d], page[d], e', q);
    }
    LinkedTable(mem', root, c);
    if d > 0 {
      assert EntryAt(mem', root, page[..d]) == EntryAt(mem, root, page[..d]);
      CoveredAt(mem, root, c);
    }
    WidenedCovers(mem, mem', root, c);
  }

  // The entry that map's loop is at is no large page.
  lemma EntryIsSmall(mem: Memory, root: nat, page: seq<nat>, d: nat)
    requires IsPage(page) && d < 3 && SmallPath(mem, root, page)
    ensures d > 0 ==> !Large(EntryAt(mem, root, page[..d + 1]))
  {
  }

  lemma LinkedTable(mem: Memory, root: nat, c: seq<nat>)
    requires c != [] && EntryAt(mem, root, c).Some? && Links(EntryAt(mem, root, c).value, |c| - 1)
    ensures TableAt(mem, root, c) == Some(EntryAt(mem, root, c).value.frame)
  {
  }

  lemma {:induction false} LinkTurn(mem: Memory, root: nat, free: set<nat>, t: nat, page: seq<nat>, d: nat, f: Flags,
      g: nat)
    requires AtLevel(mem, root, free, t, page, d, f) && d < 3 && g in free && g != t
    requires t in mem && page[d] < |mem[t]| && !mem[t][page[d]].present
    ensures var mem' := LinkNew(mem, t, page[d], Widen(mem[t][page[d]], g, f), Cleared());
            && TurnDone(mem, mem', root, free - {g}, g, page, d, f) && Accounted(mem, mem', root, free, free - {g})
            && EntryAt(mem', root, page[..d + 1]) == Some(Widen(mem[t][page[d]], g, f))
  {
    hide Tree, Covered, TableAt, EntryAt;
    var c, e := page[..d + 1], mem[t][page[d]];
    var e' := Widen(e, g, f);
    var mem' := LinkNew(mem, t, page[d], e', Cleared());
    assert c == page[..d] + [page[d]] && c[..d] == page[..d];
    EntryOfTable(mem, root, page[..d], page[d]);
    CleanAt(mem, root, free, c);
    LinkTree(mem, root, free, page[..d], page[d], e', Cleared());
    LinkAccounted(mem, root, free, page[..d], page[d], e', Cleared());
    hide Accounted;
    forall q | |q| <= 4
      ensures q != [] && q != c ==>
                EntryAt(mem', root, q) == EntryAt(mem, root, q)
                || (EntryAt(mem, root, q).None? && EntryAt(mem', root, q) == Some(ZERO))
    {
      LinkAt(mem, root, free, page[..d], page[d], e', Cleared(), q);
    }
    LinkAt(mem, root, free, page[..d], page[d], e', Cleared(), c);
    if d > 0 {
      assert EntryAt(mem, root, page[..d]).Some?;
      assert EntryAt(mem', root, page[..d]) == EntryAt(mem, root, page[..d]);
    }
    assert Agrees(mem, mem', root, c);
    WidenedCovers(mem, mem', root, c);
  }

  // The entry that a turn of map's loop reads.
  lemma LevelEntry(mem: Memory, root: nat, free: set<nat>, t: nat, page: seq<nat>, d: nat, f: Flags)
    requires AtLevel(mem, root, free, t, page, d, f)
    ensures t in mem && |mem[t]| == 512 && t !in free && page[d] < 512
    ensures EntryAt(mem, root, page[..d + 1]) == Some(mem[t][page[d]])
  {
    EntryOnPath(mem, root, free, page, d);
  }

  lemma RootTable(mem: Memory, root: nat, page: seq<nat>)
    ensures page[..0] == [] && TableAt(mem, root, page[..0]) == Some(root)
  {
  }

  lemma TableInMemory(mem: Memory, root: nat, free: set<nat>, path: seq<nat>)
    requires Tree(mem, root, free) && |path| <= 3 && TableAt(mem, root, path).Some?
    ensures var t := TableAt(mem, root, path).value;
            t in mem && |mem[t]| == 512 && t !in free
  {
  }

  // The entry that the code reads at depth d, and the table it leads to.
  lemma {:induction false} EntryOnPath(mem: Memory, root: nat, free: set<nat>, page: seq<nat>, d: nat)
    requires Tree(mem, root, free) && IsPage(page) && d <= 3 && TableAt(mem, root, page[..d]).Some?
    ensures var t := TableAt(mem, root, page[..d]).value;
            && t in mem && |mem[t]| == 512
            && EntryAt(mem, root, page[..d + 1]) == Some(mem[t][page[d]])
            && TableAt(mem, root, page[..d + 1]) ==
               if Links(mem[t][page[d]], d) then Some(mem[t][page[d]].frame) else None
  {
    assert page[..d + 1][..d] == page[..d];
  }

  // A step of the code ends at the next table exactly if it does not start from a large page.
  lemma {:induction false} NextIsTable(mem: Memory, root: nat, free: set<nat>, page: seq<nat>, d: nat)
    requires Tree(mem, root, free) && IsPage(page) && d < 3
    ensures Next(mem, TableAt(mem, root, page[..d]), page[d]) == TableAt(mem, root, page[..d + 1])
            <==> !(d > 0 && Large(EntryAt(mem, root, page[..d + 1])))
  {
    if TableAt(mem, root, page[..d]).Some? {
      EntryOnPath(mem, root, free, page, d);
    } else {
      NothingBelow(mem, root, page, d);
    }
  }

  // Three steps of the code, from the root to what it takes for the page's lowest table.
  function Steps(mem: Memory, root: nat, page: seq<nat>): Option<nat>
    requires |page| == 4
  {
    Next(mem, Next(mem, Next(mem, Some(root), page[0]), page[1]), page[2])
  }

  // Outside of large pages the three steps end at the lowest table, if there is one.  A page within a large
  // one has none; the steps then end in the memory that the large page shows, unless that memory, read as
  // a table, happens to hold no present entry where they look.
  lemma {:induction false} StepsEndIff(mem: Memory, root: nat, free: set<nat>, page: seq<nat>)
    requires Tree(mem, root, free) && IsPage(page)
    ensures Steps(mem, root, page) == TableAt(mem, root, page[..3]) <==>
            && !Large(EntryAt(mem, root, page[..3]))
            && !(Large(EntryAt(mem, root, page[..2]))
                 && Next(mem, Some(EntryAt(mem, root, page[..2]).value.frame), page[2]).Some?)
    ensures TableAt(mem, root, page[..3]).None? ==> EntryAt(mem, root, page).None?
  {
    RootTable(mem, root, page);
    NextIsTable(mem, root, free, page, 0);
    NextIsTable(mem, root, free, page, 1);
    NextIsTable(mem, root, free, page, 2);
    Prefixes(page);
    TwoSteps(mem, root, free, page);
  }

  // Two steps end at the entry's frame, whether it is a large page or a table.
  lemma {:induction false} TwoSteps(mem: Memory, root: nat, free: set<nat>, page: seq<nat>)
    requires Tree(mem, root, free) && IsPage(page)
    ensures var two := Next(mem, Next(mem, Some(root), page[0]), page[1]);
            && (Large(EntryAt(mem, root, page[..2])) ==>
                  && two == Some(EntryAt(mem, root, page[..2]).value.frame)
                  && EntryAt(mem, root, page[..3]).None? && TableAt(mem, root, page[..3]).None?)
  {
    RootTable(mem, root, page);
    NextIsTable(mem, root, free, page, 0);
    Prefixes(page);
    if TableAt(mem, root, page[..1]).Some? {
      EntryOnPath(mem, root, free, page, 1);
    } else {
      NothingBelow(mem, root, page, 1);
    }
    if Large(EntryAt(mem, root, page[..2])) {
      NothingBelow(mem, root, page, 2);
    }
  }

  // All other pages keep their frame and their rights.
  ghost predicate OthersKept(mem: Memory, mem': Memory, root: nat, page: seq<nat>) {
    forall q :: |q| == 4 && q != page ==> Walk(mem', root, 0, q) == Walk(mem, root, 0, q)
  }

  ghost predicate AllKept(mem: Memory, mem': Memory, root: nat) {
    forall q :: |q| == 4 ==> Walk(mem', root, 0, q) == Walk(mem, root, 0, q)
  }

  lemma {:induction false} TurnKeeps(mem: Memory, mem': Memory, root: nat, free: set<nat>, next: nat, page: seq<nat>,
      d: nat, f: Flags)
    requires d < 3 && |page| == 4 && Covered(mem, root) && TurnDone(mem, mem', root, free, next, page, d, f)
    ensures AllKept(mem, mem', root) && SmallKept(mem, mem', root)
  {
    forall q | |q| == 4 && SmallPath(mem, root, q)
      ensures SmallPath(mem', root, q)
    {
      assert |q[..2]| == 2 && |q[..3]| == 3;
    }
    forall q | |q| == 4
      ensures Walk(mem', root, 0, q) == Walk(mem, root, 0, q)
    {
      WidenedKeepsWalks(mem, mem', root, page[..d + 1], q);
    }
  }

  lemma SmallSame(mem: Memory, root: nat)
    ensures SmallKept(mem, mem, root) && AllKept(mem, mem, root)
  {
  }

  lemma SmallAt(mem: Memory, mem': Memory, root: nat, page: seq<nat>)
    requires |page| == 4 && SmallPath(mem, root, page) && SmallKept(mem, mem', root)
    ensures SmallPath(mem', root, page)
  {
  }

  lemma SmallThen(mem: Memory, mem': Memory, mem'': Memory, root: nat)
    requires SmallKept(mem, mem', root) && SmallKept(mem', mem'', root)
    ensures SmallKept(mem, mem'', root)
  {
    hide SmallPath;
  }

  lemma NoneUsed(free: set<nat>, free': set<nat>)
    ensures free - {} == free && free' - {} == free'
  {
  }

  lemma TurnOffPage(mem: Memory, mem': Memory, root: nat, page: seq<nat>, d: nat)
    requires |page| == 4 && d < 4 && Agrees(mem, mem', root, page[..d + 1])
    ensures OffPage(mem, mem', root, page)
  {
  }

  lemma LeafOffPage(mem: Memory, mem': Memory, root: nat, page: seq<nat>)
    requires forall q :: 0 < |q| <= 4 && q != page ==> EntryAt(mem', root, q) == EntryAt(mem, root, q)
    ensures OffPage(mem, mem', root, page)
  {
    hide EntryAt;
  }

  // A write to the entry of a page in its lowest table.
  lemma {:induction false} LeafWrite(mem: Memory, root: nat, free: set<nat>, t: nat, page: seq<nat>, e: Entry)
    requires Tree(mem, root, free) && Covered(mem, root) && IsPage(page) && TableAt(mem, root, page[..3]) == Some(t)
    requires e.present ==>
               EntryAt(mem, root, page[..3]).Some?
               && var up := EntryAt(mem, root, page[..3]).value; (e.write ==> up.write) && (e.user ==> up.user)
    ensures var mem' := SetEntry(mem, t, page[3], e);
            && Tree(mem', root, free) && Covered(mem', root) && OthersKept(mem, mem', root, page)
            && EntryAt(mem', root, page) == Some(e)
            && (forall q :: 0 < |q| <= 4 && q != page ==> EntryAt(mem', root, q) == EntryAt(mem, root, q))
            && (forall q :: |q| <= 3 ==> TableAt(mem', root, q) == TableAt(mem, root, q))
  {
    hide TableAt, EntryAt, Walk;
    var mem' := SetEntry(mem, t, page[3], e);
    assert page == page[..3] + [page[3]];
    SetLeafTree(mem, root, free, page, e);
    SetHere(mem, root, free, page[..3], page[3], e);
    forall q | 0 < |q| <= 4 && q != page
      ensures EntryAt(mem', root, q) == EntryAt(mem, root, q)
    {
      SetElsewhere(mem, root, free, page[..3], page[3], e, q);
    }
    forall q | |q| <= 3
      ensures TableAt(mem', root, q) == TableAt(mem, root, q)
    {
      SetElsewhere(mem, root, free, page[..3], page[3], e, q);
    }
    assert |page[..3]| == 3;
    forall q | |q| == 4 && q != page
      ensures Walk(mem', root, 0, q) == Walk(mem, root, 0, q)
    {
      SameEntriesSameWalk(mem, mem', root, q);
    }
  }

  lemma SameUpperSmall(mem: Memory, mem': Memory, root: nat)
    requires forall q :: 0 < |q| <= 3 ==> EntryAt(mem', root, q) == EntryAt(mem, root, q)
    ensures SmallKept(mem, mem', root)
  {
    hide EntryAt;
    forall q | |q| == 4 && SmallPath(mem, root, q)
      ensures SmallPath(mem', root, q)
    {
      assert |q[..2]| == 2 && |q[..3]| == 3;
    }
  }

  lemma {:induction false} SameEntriesSameWalk(mem: Memory, mem': Memory, root: nat, page: seq<nat>)
    requires |page| == 4 && Covered(mem, root) && Covered(mem', root)
    requires EntryAt(mem', root, page[..2]) == EntryAt(mem, root, page[..2])
    requires EntryAt(mem', root, page[..3]) == EntryAt(mem, root, page[..3])
    requires EntryAt(mem', root, page) == EntryAt(mem, root, page)
    ensures Walk(mem', root, 0, page) == Walk(mem, root, 0, page)
  {
    hide Walk, TableAt, EntryAt, Covered;
    WalkIsEntries(mem, root, page);
    WalkIsEntries(mem', root, page);
    EffectiveRights(mem, root, page);
    EffectiveRights(mem', root, page);
  }

  lemma {:induction false} SmallWalk(mem: Memory, root: nat, page: seq<nat>)
    requires |page| == 4 && Covered(mem, root) && SmallPath(mem, root, page)
    ensures Walk(mem, root, 0, page) ==
            match EntryAt(mem, root, page)
            case None => None
            case Some(e) => if e.present then Some(Accessed(e, 0)) else None
  {
    WalkIsEntries(mem, root, page);
    EffectiveRights(mem, root, page);
  }

  // ---------------------------------------------------------------- unmap

  // The frame that the code takes for a table has entries to read.
  ghost predicate Readable(mem: Memory, table: Option<nat>) {
    table.Some? ==> table.value in mem && |mem[table.value]| == 512
  }

  // The present bit of one entry is cleared, if there is a table at all.
  function MadeAbsent(mem: Memory, table: Option<nat>, i: nat): Memory
    requires i < 512 && Readable(mem, table)
  {
    if table.None? then mem else SetEntry(mem, table.value, i, mem[table.value][i].(present := false))
  }

  // The page is mapped no more, and get, which does not ask for the present bit, answers as before; all
  // other pages, all tables and all other entries are as they were.
  ghost predicate Unmapped(mem: Memory, mem': Memory, root: nat, page: seq<nat>)
    requires |page| == 4
  {
    && Walk(mem', root, 0, page).None? && OthersKept(mem, mem', root, page)
    && (forall p :: |p| <= 3 ==> TableAt(mem', root, p) == TableAt(mem, root, p))
    && OffPage(mem, mem', root, page) && SmallKept(mem, mem', root)
    && (forall o: nat :: GetByEntries(mem', root, page, o) == GetByEntries(mem, root, page, o))
    && (EntryAt(mem, root, page).Some? ==>
          EntryAt(mem', root, page) == Some(EntryAt(mem, root, page).value.(present := false)))
    && (EntryAt(mem, root, page).None? ==> EntryAt(mem', root, page).None?)
  }

  lemma {:induction false} NotMapped(mem: Memory, root: nat, free: set<nat>, page: seq<nat>)
    requires Tree(mem, root, free) && Covered(mem, root) && IsPage(page) && SmallPath(mem, root, page)
    requires Steps(mem, root, page).None?
    ensures Unmapped(mem, mem, root, page)
  {
    hide Tree, Covered, TableAt, EntryAt, Walk;
    StepsEndIff(mem, root, free, page);
    SmallWalk(mem, root, page);
  }

  lemma {:induction false} LeafAbsent(mem: Memory, root: nat, free: set<nat>, page: seq<nat>)
    requires Tree(mem, root, free) && Covered(mem, root) && IsPage(page) && SmallPath(mem, root, page)
    requires Steps(mem, root, page).Some? && Readable(mem, Steps(mem, root, page))
    ensures var mem' := MadeAbsent(mem, Steps(mem, root, page), page[3]);
            Tree(mem', root, free) && Covered(mem', root) && Unmapped(mem, mem', root, page)
  {
    hide Tree, Covered, TableAt, EntryAt, Walk;
    StepsEndIff(mem, root, free, page);
    EntryOnPath(mem, root, free, page, 3);
    Prefixes(page);
    assert |page[..2]| == 2 && |page[..3]| == 3;
    var table := Steps(mem, root, page).value;
    var e := mem[table][page[3]].(present := false);
    LeafWrite(mem, root, free, table, page, e);
    var mem' := SetEntry(mem, table, page[3], e);
    SameUpperSmall(mem, mem', root);
    LeafOffPage(mem, mem', root, page);
    SmallWalk(mem', root, page);
  }

  lemma {:induction false} EndIsReadable(mem: Memory, root: nat, free: set<nat>, page: seq<nat>)
    requires Tree(mem, root, free) && IsPage(page) && SmallPath(mem, root, page)
    ensures Readable(mem, Steps(mem, root, page))
  {
    StepsEndIff(mem, root, free, page);
  }

  // ---------------------------------------------------------------- the identity window

  // 64 TiB, in pages.
  const WINDOW: nat := 128 * (512 * 512 * 512)

  // n frames in a row.
  function FrameRun(base: nat, n: nat): (s: set<nat>)
    ensures forall g :: g in s <==> base <= g < base + n
  {
    if n == 0 then {} else FrameRun(base, n - 1) + {base + n - 1}
  }

  function PageNumber(page: seq<nat>): nat
    requires |page| == 4
  {
    Rest(page, 0)
  }

  ghost predicate InWindow(page: seq<nat>)
    requires |page| == 4
  {
    128 <= page[0] < 192
  }

  // Entry j of window table i: the 1 GiB page at 512 GiB * i + 1 GiB * j.
  function LargeEntry(i: nat, j: nat): Entry {
    ZERO.(present := true, write := true, pageSize := true, frame := i * (512 * 512 * 512) + j * (512 * 512))
  }

  method LargeTable(i: nat) returns (t: seq<Entry>)
    ensures |t| == 512 && forall j :: 0 <= j < 512 ==> t[j] == LargeEntry(i, j)
  {
    t := Cleared();
    var j := 0;
    while j < 512
      invariant j <= 512 && |t| == 512 && forall k :: 0 <= k < j ==> t[k] == LargeEntry(i, k)
    {
      t := t[j := LargeEntry(i, j)];
      j := j + 1;
    }
  }

  // Root entry k leads to table g, which leads nowhere; all else is as it was.
  ghost predicate RootEntrySet(mem: Memory, mem': Memory, root: nat, k: nat, g: nat) {
    && (forall q :: |q| <= 4 && Avoids(q, [k]) ==>
          && TableAt(mem', root, q) == TableAt(mem, root, q)
          && (q != [] ==> EntryAt(mem', root, q) == EntryAt(mem, root, q)))
    && TableAt(mem', root, [k]) == Some(g)
    && (forall q :: |q| <= 4 && [k] < q ==> TableAt(mem', root, q).None?)
  }

  // The first n tables of the window hang there, on frames from `base` on; all else is as it was.
  ghost predicate WindowTables(mem: Memory, mem': Memory, root: nat, base: nat, n: nat) {
    && (forall q :: |q| <= 4 && (q == [] || !(128 <= q[0] < 128 + n)) ==>
          && TableAt(mem', root, q) == TableAt(mem, root, q)
          && (q != [] ==> EntryAt(mem', root, q) == EntryAt(mem, root, q)))
    && (forall i :: 128 <= i < 128 + n ==> TableAt(mem', root, [i]) == Some(base + (i - 128)))
    && (forall q :: 2 <= |q| <= 4 && 128 <= q[0] < 128 + n ==> TableAt(mem', root, q).None?)
  }

  lemma {:induction false} WindowGrows(mem: Memory, mem': Memory, mem'': Memory, root: nat, base: nat, n: nat)
    requires WindowTables(mem, mem', root, base, n) && RootEntrySet(mem', mem'', root, 128 + n, base + n)
    ensures WindowTables(mem, mem'', root, base, n + 1)
  {
    hide TableAt, EntryAt;
    var k := 128 + n;
    forall q: seq<nat> | q != []
      ensures Avoids(q, [k]) <==> q[0] != k
      ensures q[0] == k && |q| >= 2 ==> [k] < q
      ensures q[0] == k && |q| == 1 ==> q == [k]
    {
    }
  }

  // One more table of the window.
  lemma {:induction false} WindowLink(mem: Memory, root: nat, free: set<nat>, i: nat, e: Entry, t: seq<Entry>)
    requires Tree(mem, root, free) && Covered(mem, root) && i < 64
    requires root in mem && |mem[root]| == 512 && !mem[root][128 + i].present
    requires e.present && !e.pageSize && e.write && !e.user && e.frame in free && e.frame != root
    requires |t| == 512 && forall j :: 0 <= j < 512 ==> t[j] == LargeEntry(i, j)
    ensures var mem' := LinkNew(mem, root, 128 + i, e, t);
            && Tree(mem', root, free - {e.frame}) && Covered(mem', root)
            && root in mem' && mem'[root] == mem[root][128 + i := e]
            && (forall page :: IsPage(page) && page[0] == 128 + i ==>
                  Walk(mem', root, 0, page) == Some(Access(PageNumber(page) - WINDOW, true, false, false, false)))
            && (forall page :: IsPage(page) && page[0] != 128 + i ==>
                  Walk(mem', root, 0, page) == Walk(mem, root, 0, page))
  {
    hide Tree, TableAt, EntryAt, Covered, Walk;
    var c := [128 + i];
    var mem' := LinkNew(mem, root, 128 + i, e, t);
    WindowCanLink(mem, root, free, i, e, t);
    LinkTree(mem, root, free, [], 128 + i, e, t);
    forall q | |q| <= 4
      ensures Avoids(q, c) && q != [] ==> EntryAt(mem', root, q) == EntryAt(mem, root, q)
      ensures q == c ==> EntryAt(mem', root, q) == Some(e)
      ensures c < q ==> EntryAt(mem, root, q).None?
                        && EntryAt(mem', root, q) == if |q| == 2 && q[1] < 512 then Some(t[q[1]]) else None
    {
      assert [] + [128 + i] == c;
      LinkAt(mem, root, free, [], 128 + i, e, t, q);
    }
    WindowCovered(mem, mem', root, i, e);
    forall page | IsPage(page)
      ensures page[0] == 128 + i ==>
                Walk(mem', root, 0, page) == Some(Access(PageNumber(page) - WINDOW, true, false, false, false))
      ensures page[0] != 128 + i ==> Walk(mem', root, 0, page) == Walk(mem, root, 0, page)
    {
      assert page[..2][0] == page[0] && page[..3][0] == page[0] && page[..2][1] == page[1];
      if page[0] == 128 + i {
        assert c < page[..2] by { assert page[..2][..1] == c; }
        LargeWalk(mem', root, page);
      } else {
        SameEntriesSameWalk(mem, mem', root, page);
      }
    }
  }

  lemma {:induction false} WindowSet(mem: Memory, root: nat, free: set<nat>, i: nat, e: Entry, t: seq<Entry>)
    requires CanLink(mem, root, free, [], 128 + i, e, t) && i < 64
    requires root in mem && |mem[root]| == 512 && e.frame != root && TableAt(mem, root, []) == Some(root)
    ensures RootEntrySet(mem, LinkNew(mem, root, 128 + i, e, t), root, 128 + i, e.frame)
  {
    assert [] + [128 + i] == [128 + i];
    var mem' := LinkNew(mem, root, 128 + i, e, t);
    hide CanLink, TableAt, EntryAt;
    forall q | |q| <= 4
      ensures Avoids(q, [128 + i]) ==> TableAt(mem', root, q) == TableAt(mem, root, q)
                                       && (q != [] ==> EntryAt(mem', root, q) == EntryAt(mem, root, q))
      ensures q == [128 + i] ==> TableAt(mem', root, q) == Some(e.frame)
      ensures [128 + i] < q ==> TableAt(mem', root, q).None?
    {
      LinkAt(mem, root, free, [], 128 + i, e, t, q);
    }
  }

  lemma {:induction false} RootClearedAt(mem: Memory, root: nat, free: set<nat>, k: nat, q: seq<nat>)
    requires Tree(mem, root, free) && k < 512 && |q| <= 4 && root in mem && |mem[root]| == 512
    ensures var mem' := SetEntry(mem, root, k, ZERO);
            && (Avoids(q, [k]) ==> TableAt(mem', root, q) == TableAt(mem, root, q)
                                   && (q != [] ==> EntryAt(mem', root, q) == EntryAt(mem, root, q)))
            && (q == [k] ==> EntryAt(mem', root, q) == Some(ZERO) && TableAt(mem', root, q).None?)
            && ([k] < q ==> EntryAt(mem', root, q).None? && TableAt(mem', root, q).None?)
  {
    var c, mem' := [k], SetEntry(mem, root, k, ZERO);
    assert [] + [k] == c && TableAt(mem, root, []) == Some(root);
    SetHere(mem, root, free, [], k, ZERO);
    if Avoids(q, c) {
      SetElsewhere(mem, root, free, [], k, ZERO, q);
    } else if q != c {
      NoneBelow(mem', root, c, q);
    }
  }

  // A root entry that led to a table leads nowhere any more.
  lemma {:induction false} RootCleared(mem: Memory, root: nat, free: set<nat>, k: nat)
    requires Tree(mem, root, free) && Covered(mem, root) && k < 512
    ensures root in mem && |mem[root]| == 512
    ensures var mem' := SetEntry(mem, root, k, ZERO);
            && Tree(mem', root, free) && Covered(mem', root)
            && (forall q :: |q| <= 4 && Avoids(q, [k]) ==>
                  && TableAt(mem', root, q) == TableAt(mem, root, q)
                  && (q != [] ==> EntryAt(mem', root, q) == EntryAt(mem, root, q)))
            && forall page :: IsPage(page) && page[0] != k ==> Walk(mem', root, 0, page) == Walk(mem, root, 0, page)
  {
    TableInMemory(mem, root, free, []);
    var c, mem' := [k], SetEntry(mem, root, k, ZERO);
    assert [] + [k] == c;
    hide TableAt, EntryAt, Walk;
    forall q | |q| <= 4
      ensures Avoids(q, c) ==> TableAt(mem', root, q) == TableAt(mem, root, q)
                               && (q != [] ==> EntryAt(mem', root, q) == EntryAt(mem, root, q))
      ensures q == c ==> EntryAt(mem', root, q) == Some(ZERO) && TableAt(mem', root, q).None?
      ensures c < q ==> EntryAt(mem', root, q).None? && TableAt(mem', root, q).None?
    {
      RootClearedAt(mem, root, free, k, q);
    }
    assert Tree(mem', root, free);
    hide Tree;
    forall q | 2 <= |q| <= 4 && EntryAt(mem', root, q).Some? && EntryAt(mem', root, q).value.present
      ensures var up := EntryAt(mem', root, q[..|q| - 1]);
              && up.Some?
              && (EntryAt(mem', root, q).value.write ==> up.value.write)
              && (EntryAt(mem', root, q).value.user ==> up.value.user)
    {
      assert Avoids(q, c) && Avoids(q[..|q| - 1], c);
      CoveredAt(mem, root, q);
    }
    forall page | IsPage(page) && page[0] != k
      ensures Walk(mem', root, 0, page) == Walk(mem, root, 0, page)
    {
      assert page[..2][0] == page[0] && page[..3][0] == page[0];
      SameEntriesSameWalk(mem, mem', root, page);
    }
  }

  // One more table of the window, whatever the root entry held.
  lemma {:induction false} WindowOverwrite(mem: Memory, root: nat, free: set<nat>, i: nat, e: Entry, t: seq<Entry>)
    requires Tree(mem, root, free) && Covered(mem, root) && i < 64 && root in mem && |mem[root]| == 512
    requires e.present && !e.pageSize && e.write && !e.user && e.frame in free && e.frame != root
    requires |t| == 512 && forall j :: 0 <= j < 512 ==> t[j] == LargeEntry(i, j)
    ensures var mem' := LinkNew(mem, root, 128 + i, e, t);
            && Tree(mem', root, free - {e.frame}) && Covered(mem', root)
            && root in mem' && mem'[root] == mem[root][128 + i := e] && RootEntrySet(mem, mem', root, 128 + i, e.frame)
            && (forall page :: IsPage(page) && page[0] == 128 + i ==>
                  Walk(mem', root, 0, page) == Some(Access(PageNumber(page) - WINDOW, true, false, false, false)))
            && (forall page :: IsPage(page) && page[0] != 128 + i ==>
                  Walk(mem', root, 0, page) == Walk(mem, root, 0, page))
  {
    hide Tree, Covered, Walk, TableAt, EntryAt;
    var cleared := SetEntry(mem, root, 128 + i, ZERO);
    RootCleared(mem, root, free, 128 + i);
    WindowLink(cleared, root, free, i, e, t);
    WindowCanLink(cleared, root, free, i, e, t);
    WindowSet(cleared, root, free, i, e, t);
    assert cleared[root][128 + i := e] == mem[root][128 + i := e];
    assert LinkNew(cleared, root, 128 + i, e, t) == LinkNew(mem, root, 128 + i, e, t);
  }

  // The first n tables of the window, and what the processor finds through them.
  ghost predicate WindowUpTo(mem: Memory, mem': Memory, root: nat, base: nat, n: nat) {
    && WindowTables(mem, mem', root, base, n)
    && (forall page :: IsPage(page) && 128 <= page[0] < 128 + n ==>
          Walk(mem', root, 0, page) == Some(Access(PageNumber(page) - WINDOW, true, false, false, false)))
    && (forall page :: IsPage(page) && !(128 <= page[0] < 128 + n) ==>
          Walk(mem', root, 0, page) == Walk(mem, root, 0, page))
  }

  ghost predicate RootReady(mem: Memory, root: nat, free: set<nat>) {
    root in mem && |mem[root]| == 512 && root !in free
  }

  lemma NoWindow(mem: Memory, root: nat, free: set<nat>, base: nat)
    requires Tree(mem, root, free)
    ensures WindowUpTo(mem, mem, root, base, 0) && RootReady(mem, root, free) && free - FrameRun(base, 0) == free
  {
    assert TableAt(mem, root, []) == Some(root);
  }

  lemma NotInRun(mem: Memory, root: nat, free: set<nat>, base: nat)
    requires RootReady(mem, root, free) && FrameRun(base, 64) <= free
    ensures WindowContents(mem, root, base, 0) && !(base <= root < base + 64)
  {
    assert root !in FrameRun(base, 64);
  }

  lemma RunGrows(base: nat, i: nat)
    ensures FrameRun(base, i + 1) == FrameRun(base, i) + {base + i} && base + i !in FrameRun(base, i)
    ensures i < 64 ==> base + i in FrameRun(base, 64)
  {
  }

  // The tables of the window, entry by entry: 1 GiB pages, writeable, not for the user, cached as usual.
  ghost predicate WindowContents(mem: Memory, root: nat, base: nat, n: nat) {
    && root in mem && |mem[root]| == 512
    && (forall k :: 128 <= k < 128 + n && k < 512 ==>
          mem[root][k] == Entry(true, true, false, false, false, false, false, false, false, false, base + (k - 128)))
    && (forall g :: base <= g < base + n ==>
          && g in mem && |mem[g]| == 512
          && forall j :: 0 <= j < 512 ==>
               mem[g][j] == Entry(true, true, false, false, false, false, false, true, false, false,
                                  (g - base) * 0x800_0000 + j * 0x4_0000))
  }

  lemma ContentsGrow(mem: Memory, root: nat, base: nat, i: nat, e: Entry, t: seq<Entry>)
    requires i < 64 && WindowContents(mem, root, base, i) && !(base <= root <= base + i)
    requires e == ZERO.(frame := base + i, present := true, write := true)
    requires |t| == 512 && forall j :: 0 <= j < 512 ==> t[j] == LargeEntry(i, j)
    ensures WindowContents(LinkNew(mem, root, 128 + i, e, t), root, base, i + 1)
  {
  }

  lemma {:induction false} WindowTurn(mem0: Memory, mem: Memory, root: nat, free: set<nat>, base: nat, i: nat, e: Entry,
      t: seq<Entry>)
    requires Tree(mem, root, free) && Covered(mem, root) && i < 64 && RootReady(mem, root, free)
    requires e == ZERO.(frame := base + i, present := true, write := true) && e.frame in free
    requires |t| == 512 && forall j :: 0 <= j < 512 ==> t[j] == LargeEntry(i, j)
    requires WindowUpTo(mem0, mem, root, base, i)
    ensures e.frame != root
    ensures var mem' := LinkNew(mem, root, 128 + i, e, t);
            && Tree(mem', root, free - {e.frame}) && Covered(mem', root) && RootReady(mem', root, free - {e.frame})
            && WindowUpTo(mem0, mem', root, base, i + 1)
  {
    hide Tree, Covered, Walk, TableAt, EntryAt, WindowTables, RootEntrySet;
    WindowOverwrite(mem, root, free, i, e, t);
    WindowGrows(mem0, mem, LinkNew(mem, root, 128 + i, e, t), root, base, i);
  }

  lemma WindowComplete(mem: Memory, mem': Memory, root: nat, base: nat)
    requires WindowUpTo(mem, mem', root, base, 64)
    ensures WindowTables(mem, mem', root, base, 64) && WindowShown(mem', root)
    ensures forall page :: IsPage(page) && InWindow(page) ==>
              Walk(mem', root, 0, page) == Some(Access(PageNumber(page) - WINDOW, true, false, false, false))
    ensures forall page :: IsPage(page) && !InWindow(page) ==> Walk(mem', root, 0, page) == Walk(mem, root, 0, page)
  {
    hide Walk, WindowTables;
  }

  lemma WindowCanLink(mem: Memory, root: nat, free: set<nat>, i: nat, e: Entry, t: seq<Entry>)
    requires Tree(mem, root, free) && i < 64 && root in mem && |mem[root]| == 512 && !mem[root][128 + i].present
    requires e.present && !e.pageSize && e.frame in free
    requires |t| == 512 && forall j :: 0 <= j < 512 ==> t[j] == LargeEntry(i, j)
    ensures CanLink(mem, root, free, [], 128 + i, e, t) && TableAt(mem, root, []) == Some(root)
  {
    EntryOfTable(mem, root, [], 128 + i);
  }

  lemma WindowCovered(mem: Memory, mem': Memory, root: nat, i: nat, e: Entry)
    requires Covered(mem, root) && e.write && !e.user
    requires forall q :: 0 < |q| <= 4 && Avoids(q, [128 + i]) ==> EntryAt(mem', root, q) == EntryAt(mem, root, q)
    requires EntryAt(mem', root, [128 + i]) == Some(e)
    requires forall q :: |q| <= 4 && [128 + i] < q ==>
               || EntryAt(mem', root, q).None?
               || (|q| == 2 && exists j :: EntryAt(mem', root, q).value == LargeEntry(i, j))
    ensures Covered(mem', root)
  {
    forall q | 2 <= |q| <= 4 && EntryAt(mem', root, q).Some? && EntryAt(mem', root, q).value.present
      ensures var up := EntryAt(mem', root, q[..|q| - 1]);
              && up.Some?
              && (EntryAt(mem', root, q).value.write ==> up.value.write)
              && (EntryAt(mem', root, q).value.user ==> up.value.user)
    {
      if Avoids(q, [128 + i]) {
        CoveredAt(mem, root, q);
      } else {
        assert q[..|q| - 1] == [128 + i];
      }
    }
  }

  lemma {:induction false} LargeWalk(mem: Memory, root: nat, page: seq<nat>)
    requires |page| == 4 && Covered(mem, root) && Large(EntryAt(mem, root, page[..2]))
    ensures var e := EntryAt(mem, root, page[..2]).value;
            Walk(mem, root, 0, page) == Some(Accessed(e, Rest(page, 2)))
  {
    WalkIsEntries(mem, root, page);
    EffectiveRights(mem, root, page);
  }

  class PageTable {
    var mem: Memory
    var free: set<nat>
    const root: nat

    ghost predicate Valid()
      reads this
    {
      Tree(mem, root, free) && Covered(mem, root)
    }

    constructor (root: nat, mem: Memory, free: set<nat>)
      requires Tree(mem, root, free) && Covered(mem, root)
      ensures Valid() && this.root == root && this.mem == mem && this.free == free
    {
      this.root, this.mem, this.free := root, mem, free;
    }

    // One turn of map's loop (lines 88-99): entry page[d] of table t is given a table to lead to, if it
    // has none, and the flags.
    method MapLevel(t: nat, page: seq<nat>, d: nat, f: Flags) returns (next: Option<nat>)
      requires AtLevel(mem, root, free, t, page, d, f) && d < 3
      modifies this
      ensures next.None? ==> mem == old(mem) && free == old(free) == {}
      ensures next.Some? ==> free <= old(free) && TurnDone(old(mem), mem, root, free, next.value, page, d, f)
      ensures next.Some? ==> Accounted(old(mem), mem, root, old(free), free)
      ensures next.Some? ==>
                && EntryAt(old(mem), root, page[..d + 1]).Some? && EntryAt(mem, root, page[..d + 1]).Some?
                && EntryAt(mem, root, page[..d + 1]).value.frame == next.value
                && UpperSet(EntryAt(old(mem), root, page[..d + 1]).value, EntryAt(mem, root, page[..d + 1]).value, f)
    {
      LevelEntry(mem, root, free, t, page, d, f);
      hide Tree, Covered, TableAt, EntryAt, Agrees, Widened, Accounted, SmallPath;
      var e := mem[t][page[d]];
      if e.present {
        WidenTurn(mem, root, free, t, page, d, f);
        mem := SetEntry(mem, t, page[d], Widen(e, e.frame, f));
        next := Some(e.frame);
      } else if free == {} {
        next := None;
      } else {
        var g :| g in free;
        LinkTurn(mem, root, free, t, page, d, f, g);
        mem, free := LinkNew(mem, t, page[d], Widen(e, g, f), Cleared()), free - {g};
        next := Some(g);
      }
    }

    // map.  The result is false where the source panics for want of a frame.
    method Map(frame: nat, page: seq<nat>, f: Flags) returns (ok: bool)
      requires Valid() && IsPage(page) && SmallPath(mem, root, page)
      modifies this
      ensures Valid() && free <= old(free)
      ensures OthersKept(old(mem), mem, root, page)
      ensures Accounted(old(mem), mem, root, old(free), free) && OffPage(old(mem), mem, root, page)
      ensures SmallKept(old(mem), mem, root)
      ensures ok ==>
                Walk(mem, root, 0, page) == Some(Access(frame, f.writeable, f.user, f.writeThrough, f.cacheDisabled))
      ensures ok ==> forall k :: 1 <= k <= 3 ==>
                && EntryAt(mem, root, page[..k]).Some?
                && UpperSet(EntryOrZero(old(mem), root, page[..k]), EntryAt(mem, root, page[..k]).value, f)
      ensures ok ==>
                && EntryAt(mem, root, page).Some?
                && LastSet(EntryOrZero(old(mem), root, page), EntryAt(mem, root, page).value, frame, f)
      ensures !ok ==> free == {} && Walk(mem, root, 0, page) == Walk(old(mem), root, 0, page)
    {
      hide Tree, Covered, TableAt, EntryAt, Walk, Accounted, OffPage, SmallKept, SmallPath, Agrees, Widened;
      hide EntryOrZero, UpperSet, LastSet;
      RootTable(mem, root, page);
      WayStarts(mem, root, page, f);
      hide WaySet;
      NothingUsed(mem, root, free, page);
      SmallSame(mem, root);
      var table := root;
      var d := 0;
      while d < 3
        invariant d <= 3 && free <= old(free)
        invariant AtLevel(mem, root, free, table, page, d, f)
        invariant AllKept(old(mem), mem, root)
        invariant Accounted(old(mem), mem, root, old(free), free) && OffPage(old(mem), mem, root, page)
        invariant SmallKept(old(mem), mem, root) && WaySet(old(mem), mem, root, page, d, f)
      {
        ghost var before, freeBefore := mem, free;
        var next := MapLevel(table, page, d, f);
        if next.None? {
          return false;
        }
        TurnKeeps(before, mem, root, free, next.value, page, d, f);
        WayTurn(old(mem), before, mem, root, page, d, f);
        TurnOffPage(before, mem, root, page, d);
        OffPageThen(old(mem), before, mem, root, page);
        SmallThen(old(mem), before, mem, root);
        NoneUsed(old(free), freeBefore);
        AccountedThen(old(mem), before, mem, root, old(free), freeBefore, {}, free);
        table, d := next.value, d + 1;
      }
      ghost var before := mem;
      TableInMemory(mem, root, free, page[..3]);
      var e := LeafEntry(mem[table][page[3]], frame, f);
      LeafWrite(mem, root, free, table, page, e);
      EntryOnPath(mem, root, free, page, 3);
      mem := SetEntry(mem, table, page[3], e);
      WayEnds(old(mem), before, mem, root, page, frame, f);
      SameUpperSmall(before, mem, root);
      SmallThen(old(mem), before, mem, root);
      LeafOffPage(before, mem, root, page);
      OffPageThen(old(mem), before, mem, root, page);
      TablesSame(before, mem, root, free);
      NoneUsed(old(free), free);
      AccountedThen(old(mem), before, mem, root, old(free), free, {}, free);
      SmallAt(old(mem), mem, root, page);
      SmallWalk(mem, root, page);
      return true;
    }

    // unmap: the entry of the page is made absent, if its tables are there at all.
    method Unmap(page: seq<nat>)
      requires Valid() && IsPage(page) && Readable(mem, Steps(mem, root, page))
      modifies this`mem
      ensures mem == MadeAbsent(old(mem), Steps(old(mem), root, page), page[3])
      ensures SmallPath(old(mem), root, page) ==> Valid() && Unmapped(old(mem), mem, root, page)
    {
      hide Tree, Covered, TableAt, EntryAt, Walk;
      var table := Steps(mem, root, page);
      if table.None? {
        if SmallPath(mem, root, page) {
          NotMapped(mem, root, free, page);
        }
        return;
      }
      ghost var before := mem;
      mem := SetEntry(mem, table.value, page[3], mem[table.value][page[3]].(present := false));
      if SmallPath(before, root, page) {
        LeafAbsent(before, root, free, page);
      }
    }

    // get: the address of a page's bytes, as an offset from frame 0.
    method Get(page: seq<nat>, offset: nat) returns (address: Option<nat>)
      requires Valid() && IsPage(page) && offset < PAGE
      ensures address == GetByWindow(mem, root, page, offset)
    {
      hide Tree, Covered, Walk, EntryAt, TableAt;
      if 128 <= page[0] < 192 {
        return Some((PageNumber(page) - WINDOW) * PAGE + offset);
      }
      Prefixes(page);
      RootTable(mem, root, page);
      NextIsTable(mem, root, free, page, 0);
      var l3 := Next(mem, Some(root), page[0]);
      if l3.None? {
        NothingBelow(mem, root, page, 1);
        NothingBelow(mem, root, page, 2);
        NothingBelow(mem, root, page, 3);
        return None;
      }
      EntryOnPath(mem, root, free, page, 1);
      var e := mem[l3.value][page[1]];
      if e.pageSize {
        return Some(e.frame * PAGE + offset + page[3] * PAGE + page[2] * 2097152);
      }
      if !e.present {
        NothingBelow(mem, root, page, 2);
        NothingBelow(mem, root, page, 3);
        return None;
      }
      EntryOnPath(mem, root, free, page, 2);
      e := mem[e.frame][page[2]];
      if e.pageSize {
        return Some(e.frame * PAGE + offset + page[3] * PAGE);
      }
      if !e.present {
        NothingBelow(mem, root, page, 3);
        return None;
      }
      EntryOnPath(mem, root, free, page, 3);
      e := mem[e.frame][page[3]];
      return Some(e.frame * PAGE + offset);
    }

    // init: 64 tables of 1 GiB pages show physical memory, from frame 0 on, at root entries 128 to 191.
    // The source takes 64 frames in a row, beginning at frame `base`.
    method Init(base: nat)
      requires Valid() && FrameRun(base, 64) <= free
      modifies this
      ensures Valid() && free == old(free) - FrameRun(base, 64) && WindowShown(mem, root)
      ensures WindowTables(old(mem), mem, root, base, 64) && WindowContents(mem, root, base, 64)
      ensures forall page :: IsPage(page) && InWindow(page) ==>
                Walk(mem, root, 0, page) == Some(Access(PageNumber(page) - WINDOW, true, false, false, false))
      ensures forall page :: IsPage(page) && !InWindow(page) ==>
                Walk(mem, root, 0, page) == Walk(old(mem), root, 0, page)
    {
      hide Tree, Covered, Walk, TableAt, EntryAt, WindowUpTo, FrameRun, WindowTables, WindowShown;
      NoWindow(mem, root, free, base);
      NotInRun(mem, root, free, base);
      hide WindowContents;
      var i := 0;
      while i < 64
        invariant i <= 64 && Valid() && RootReady(mem, root, free)
        invariant free == old(free) - FrameRun(base, i) && WindowUpTo(old(mem), mem, root, base, i)
        invariant WindowContents(mem, root, base, i) && !(base <= root < base + 64)
      {
        var table := LargeTable(i);
        var e := ZERO.(frame := base + i, present := true, write := true);
        RunGrows(base, i);
        WindowTurn(old(mem), mem, root, free, base, i, e, table);
        ContentsGrow(mem, root, base, i, e, table);
        mem, free := LinkNew(mem, root, 128 + i, e, table), free - {base + i};
        i := i + 1;
      }
      WindowComplete(old(mem), mem, root, base);
    }
  }

  // What get answers: a large page is recognised, present or not, and the last entry is not asked
  // whether it is present.
  ghost function GetByEntries(mem: Memory, root: nat, page: seq<nat>, offset: nat): Option<nat>
    requires |page| == 4
  {
    var e1, e2, e3 := EntryAt(mem, root, page[..2]), EntryAt(mem, root, page[..3]), EntryAt(mem, root, page);
    if e1.Some? && e1.value.pageSize then Some((e1.value.frame + Rest(page, 2)) * PAGE + offset)
    else if e2.Some? && e2.value.pageSize then Some((e2.value.frame + Rest(page, 3)) * PAGE + offset)
    else if e3.Some? then Some(e3.value.frame * PAGE + offset)
    else None
  }

  // In the window, get does not look at the tables.
  ghost function GetByWindow(mem: Memory, root: nat, page: seq<nat>, offset: nat): Option<nat>
    requires |page| == 4
  {
    if InWindow(page) then Some((PageNumber(page) - WINDOW) * PAGE + offset) else GetByEntries(mem, root, page, offset)
  }

  // The window as init sets it up, for all that concerns get.
  ghost predicate WindowShown(mem: Memory, root: nat) {
    forall page :: IsPage(page) && InWindow(page) ==> Frame(mem, root, page) == Some(PageNumber(page) - WINDOW)
  }

  // get is the processor's answer wherever the processor has one ...
  lemma {:induction false} GetAgreesWithWalk(mem: Memory, root: nat, free: set<nat>, page: seq<nat>, offset: nat)
    requires Tree(mem, root, free) && IsPage(page) && Frame(mem, root, page).Some?
    requires InWindow(page) ==> WindowShown(mem, root)
    ensures GetByWindow(mem, root, page, offset) == Some(Frame(mem, root, page).value * PAGE + offset)
  {
    WalkIsEntries(mem, root, page);
    WayDown(mem, root, free, page);
    hide Walk, TableAt, EntryAt, Tree;
  }

  // ... and it is the processor's answer, an address or none, exactly if the last entry is not one that is
  // there and absent.
  lemma {:induction false} GetAgreesIffPresent(mem: Memory, root: nat, free: set<nat>, page: seq<nat>, offset: nat)
    requires Tree(mem, root, free) && IsPage(page) && (InWindow(page) ==> WindowShown(mem, root))
    ensures GetByWindow(mem, root, page, offset) == AddressIn(Frame(mem, root, page), offset) <==>
            !(EntryAt(mem, root, page).Some? && !EntryAt(mem, root, page).value.present)
  {
    WalkIsEntries(mem, root, page);
    WayDown(mem, root, free, page);
    hide Walk, TableAt, EntryAt, Tree;
  }

  // Below a large page there is nothing, and no absent entry has the size bit.
  lemma {:induction false} WayDown(mem: Memory, root: nat, free: set<nat>, page: seq<nat>)
    requires Tree(mem, root, free) && IsPage(page)
    ensures Large(EntryAt(mem, root, page[..2])) ==> EntryAt(mem, root, page[..3]).None?
    ensures EntryAt(mem, root, page[..3]).None? || Large(EntryAt(mem, root, page[..3])) ==>
              EntryAt(mem, root, page).None?
    ensures forall d | 2 <= d <= 3 && EntryAt(mem, root, page[..d]).Some? ::
              EntryAt(mem, root, page[..d]).value.pageSize ==> Large(EntryAt(mem, root, page[..d]))
  {
    Prefixes(page);
    EntryIn(mem, root, page[..2]);
    EntryIn(mem, root, page[..3]);
    EntryIn(mem, root, page);
    hide TableAt, EntryAt;
    assert |page[..2]| == 2 && |page[..3]| == 3;
  }

  function AddressIn(frame: Option<nat>, offset: nat): Option<nat> {
    match frame
    case None => None
    case Some(f) => Some(f * PAGE + offset)
  }
}
