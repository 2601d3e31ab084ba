/** Page tables in physical memory: include/memory/paging.h:18-43 and the 4-level walk of the processor
    (Intel SDM, volume 3A, section 4.5).

    Memory is a map from frame number to the 512 entries that frame holds when read as a table.  A page
    is the list of its four table indices, top level first, and so is every table above it: the path []
    is the root, and the entry of path p lies in the table of p without its last index. */
module PageTables {
  import opened Common

  // PageTableEntry.  `full` is bit 0 of metaData, the only metadata bit the kernel uses.
  datatype Entry = Entry(
    present: bool, write: bool, user: bool, writeThrough: bool, cacheDisabled: bool,
    accessed: bool, dirty: bool, pageSize: bool, global: bool, full: bool, frame: nat)

  const ZERO := Entry(false, false, false, false, false, false, false, false, false, false, 0)

  type Memory = map<nat, seq<Entry>>

  // A table of 512 cleared entries.
  function Cleared(): (t: seq<Entry>)
    ensures |t| == 512 && forall i :: 0 <= i < 512 ==> t[i] == ZERO
  {
    seq(512, _ => ZERO)
  }

  ghost predicate IsPath(path: seq<nat>) {
    |path| <= 4 && forall i :: 0 <= i < |path| ==> path[i] < 512
  }

  ghost predicate IsPage(page: seq<nat>) {
    IsPath(page) && |page| == 4
  }

  // An entry of a table at the given depth (0 for the root) that leads to a further table.  Only
  // depths 1 and 2 know large pages.
  predicate Links(e: Entry, depth: nat) {
    e.present && !(0 < depth && e.pageSize)
  }

  // ---------------------------------------------------------------- the processor's walk

  // The part of the page number below the given depth.
  function Rest(page: seq<nat>, depth: nat): nat
    requires |page| == 4 && depth <= 4
    decreases 4 - depth
  {
    if depth == 4 then 0 else page[depth] * Span(depth) + Rest(page, depth + 1)
  }

  // Pages under one entry of a table at the given depth.
  function Span(depth: nat): nat
    requires depth < 4
  {
    if depth == 0 then 512 * 512 * 512 else if depth == 1 then 512 * 512 else if depth == 2 then 512 else 1
  }

  // What the processor finds: the physical frame, the rights that all entries on the way grant, and how the
  // last entry has the page cached (Intel SDM, volume 3A, section 4.9).
  datatype Access = Access(frame: nat, write: bool, user: bool, writeThrough: bool, cacheDisabled: bool)

  // The access that an entry by itself gives to the page `rest` pages into it.
  function Accessed(e: Entry, rest: nat): Access {
    Access(e.frame + rest, e.write, e.user, e.writeThrough, e.cacheDisabled)
  }

  function Walk(mem: Memory, f: nat, depth: nat, page: seq<nat>): Option<Access>
    requires |page| == 4 && depth < 4
    decreases 4 - depth
  {
    if f !in mem || page[depth] >= |mem[f]| then None
    else
      var e := mem[f][page[depth]];
      if !e.present then None
      else if depth == 3 then Some(Accessed(e, 0))
      else if !Links(e, depth) then Some(Accessed(e, Rest(page, depth + 1)))
      else
        match Walk(mem, e.frame, depth + 1, page)
        case None => None
        case Some(a) => Some(a.(write := a.write && e.write, user := a.user && e.user))
  }

  // The physical frame a page is mapped to.
  function Frame(mem: Memory, root: nat, page: seq<nat>): Option<nat>
    requires |page| == 4
  {
    match Walk(mem, root, 0, page)
    case None => None
    case Some(a) => Some(a.frame)
  }

  // ---------------------------------------------------------------- tables by path

  function TableAt(mem: Memory, root: nat, path: seq<nat>): Option<nat>
    decreases |path|, 0
  {
    if path == [] then Some(root)
    else
      match EntryAt(mem, root, path)
      case None => None
      case Some(e) => if Links(e, |path| - 1) then Some(e.frame) else None
  }

  function EntryAt(mem: Memory, root: nat, path: seq<nat>): Option<Entry>
    requires path != []
    decreases |path| - 1, 1
  {
    var i := path[|path| - 1];
    match TableAt(mem, root, path[..|path| - 1])
    case None => None
    case Some(f) => if f in mem && i < |mem[f]| then Some(mem[f][i]) else None
  }

  // The present entry at a path.
  ghost function Slot(mem: Memory, root: nat, p: seq<nat>): Option<Entry>
    requires p != []
  {
    var e := EntryAt(mem, root, p);
    if e.Some? && e.value.present then e else None
  }

  lemma TableBySlot(mem: Memory, root: nat, c: seq<nat>)
    requires c != []
    ensures TableAt(mem, root, c) ==
            if Slot(mem, root, c).Some? && Links(Slot(mem, root, c).value, |c| - 1)
            then Some(Slot(mem, root, c).value.frame) else None
  {
  }

  // The tables form a tree: every table lies in memory, none is free, and none hangs in two places.
  // Entries that are not present are clean.
  ghost predicate Tree(mem: Memory, root: nat, free: set<nat>) {
    && (forall p :: |p| <= 3 && TableAt(mem, root, p).Some? ==>
          var f := TableAt(mem, root, p).value;
          f in mem && |mem[f]| == 512 && f !in free)
    && (forall p, q | |p| <= 3 && |q| <= 3 && TableAt(mem, root, p).Some? && TableAt(mem, root, q).Some? ::
          TableAt(mem, root, p).value == TableAt(mem, root, q).value ==> p == q)
    && (forall p :: 0 < |p| <= 3 && EntryAt(mem, root, p).Some? && !EntryAt(mem, root, p).value.present ==>
          var e := EntryAt(mem, root, p).value;
          !e.pageSize && !e.write && !e.user)
  }

  lemma TreeShrinks(mem: Memory, root: nat, free: set<nat>, less: set<nat>)
    requires Tree(mem, root, free) && less <= free
    ensures Tree(mem, root, less)
  {
  }

  // A frame that is no table may be freed.
  lemma TreeGrows(mem: Memory, root: nat, free: set<nat>, g: nat)
    requires Tree(mem, root, free) && NotTable(mem, root, g)
    ensures Tree(mem, root, free + {g})
  {
  }

  ghost predicate NotTable(mem: Memory, root: nat, g: nat) {
    forall p :: |p| <= 3 && TableAt(mem, root, p).Some? ==> TableAt(mem, root, p).value != g
  }

  // ---------------------------------------------------------------- keeping account

  // Tables stay; new ones are on frames that were free, and no other frame has left the free ones.
  ghost predicate Accounted(mem: Memory, mem': Memory, root: nat, free: set<nat>, free': set<nat>) {
    && free' <= free
    && (forall p :: |p| <= 3 && TableAt(mem, root, p).Some? ==> TableAt(mem', root, p) == TableAt(mem, root, p))
    && (forall p :: |p| <= 3 && TableAt(mem, root, p).None? && TableAt(mem', root, p).Some? ==>
          TableAt(mem', root, p).value in free && TableAt(mem', root, p).value !in free')
    && (forall f :: f in free && f !in free' ==> NewTable(mem, mem', root, f))
  }

  ghost predicate NewTable(mem: Memory, mem': Memory, root: nat, f: nat) {
    exists p :: |p| <= 3 && TableAt(mem, root, p).None? && TableAt(mem', root, p) == Some(f)
  }

  // Over two steps, of which the first may have put further frames to use.
  lemma {:induction false} AccountedThen(mem: Memory, mem': Memory, mem'': Memory, root: nat, free: set<nat>,
      free': set<nat>, used: set<nat>, free'': set<nat>)
    requires Accounted(mem, mem', root, free, free')
    requires used <= free' && Accounted(mem', mem'', root, free' - used, free'')
    ensures Accounted(mem, mem'', root, free - used, free'')
  {
    hide TableAt;
    forall f | f in free - used && f !in free''
      ensures NewTable(mem, mem'', root, f)
    {
      if f in free' {
        var p :| |p| <= 3 && TableAt(mem', root, p).None? && TableAt(mem'', root, p) == Some(f);
        assert TableAt(mem, root, p).None?;
      } else {
        var p :| |p| <= 3 && TableAt(mem, root, p).None? && TableAt(mem', root, p) == Some(f);
        assert TableAt(mem'', root, p) == Some(f);
      }
    }
  }

  // Off the way to a page, the present entries are as they were.
  ghost predicate OffPage(mem: Memory, mem': Memory, root: nat, page: seq<nat>) {
    forall q :: 0 < |q| <= 4 && !(q <= page) ==> Slot(mem', root, q) == Slot(mem, root, q)
  }

  lemma OffPageThen(mem: Memory, mem': Memory, mem'': Memory, root: nat, page: seq<nat>)
    requires OffPage(mem, mem', root, page) && OffPage(mem', mem'', root, page)
    ensures OffPage(mem, mem'', root, page)
  {
    hide Slot;
  }

  lemma NothingUsed(mem: Memory, root: nat, free: set<nat>, page: seq<nat>)
    ensures Accounted(mem, mem, root, free, free) && OffPage(mem, mem, root, page)
  {
  }

  lemma TablesSame(mem: Memory, mem': Memory, root: nat, free: set<nat>)
    requires forall p :: |p| <= 3 ==> TableAt(mem', root, p) == TableAt(mem, root, p)
    ensures Accounted(mem, mem', root, free, free)
  {
  }

  // ---------------------------------------------------------------- the walk, entry by entry

  ghost predicate Large(e: Option<Entry>) {
    e.Some? && e.value.present && e.value.pageSize
  }

  // The frame of a page, read off the entries on its path.
  ghost function FrameByEntries(mem: Memory, root: nat, page: seq<nat>): Option<nat>
    requires |page| == 4
  {
    if Large(EntryAt(mem, root, page[..2])) then Some(EntryAt(mem, root, page[..2]).value.frame + Rest(page, 2))
    else if Large(EntryAt(mem, root, page[..3])) then Some(EntryAt(mem, root, page[..3]).value.frame + Rest(page, 3))
    else if EntryAt(mem, root, page).Some? && EntryAt(mem, root, page).value.present
    then Some(EntryAt(mem, root, page).value.frame)
    else None
  }

  lemma Prefixes(page: seq<nat>)
    requires |page| == 4
    ensures page[..4] == page && page[..4][..3] == page[..3] && page[..3][..2] == page[..2]
    ensures page[..2][..1] == page[..1] && page[..1][..0] == [] == page[..0]
  {
  }

  // One step of the walk.
  lemma {:induction false} WalkStep(mem: Memory, root: nat, page: seq<nat>, depth: nat)
    requires |page| == 4 && depth < 4 && TableAt(mem, root, page[..depth]).Some?
    ensures var f := TableAt(mem, root, page[..depth]).value;
            var e := EntryAt(mem, root, page[..depth + 1]);
            Walk(mem, f, depth, page) ==
            if e.None? || !e.value.present then None
            else if depth == 3 then Some(Accessed(e.value, 0))
            else if !Links(e.value, depth) then
              Some(Accessed(e.value, Rest(page, depth + 1)))
            else match Walk(mem, TableAt(mem, root, page[..depth + 1]).value, depth + 1, page)
                 case None => None
                 case Some(a) => Some(a.(write := a.write && e.value.write, user := a.user && e.value.user))
  {
    assert page[..depth + 1][..depth] == page[..depth];
  }

  // Below a path that leads to no table there is nothing.
  lemma {:induction false} NothingBelow(mem: Memory, root: nat, page: seq<nat>, depth: nat)
    requires |page| == 4 && depth < 4 && TableAt(mem, root, page[..depth]).None?
    ensures EntryAt(mem, root, page[..depth + 1]).None? && TableAt(mem, root, page[..depth + 1]).None?
  {
    assert page[..depth + 1][..depth] == page[..depth];
  }

  lemma RootIsTable(mem: Memory, root: nat, page: seq<nat>)
    ensures page[..0] == [] && TableAt(mem, root, page[..0]) == Some(root)
  {
  }

  lemma {:induction false} WalkIsEntries(mem: Memory, root: nat, page: seq<nat>)
    requires |page| == 4
    ensures Frame(mem, root, page) == FrameByEntries(mem, root, page)
  {
    RootIsTable(mem, root, page);
    EntryIn(mem, root, page[..1]);
    EntryIn(mem, root, page[..2]);
    EntryIn(mem, root, page[..3]);
    hide TableAt, EntryAt;
    Prefixes(page);
    WalkStep(mem, root, page, 0);
    if TableAt(mem, root, page[..1]).None? {
      NothingBelow(mem, root, page, 1);
      NothingBelow(mem, root, page, 2);
      NothingBelow(mem, root, page, 3);
    } else {
      WalkStep(mem, root, page, 1);
      if TableAt(mem, root, page[..2]).None? {
        NothingBelow(mem, root, page, 2);
        NothingBelow(mem, root, page, 3);
      } else {
        WalkStep(mem, root, page, 2);
        if TableAt(mem, root, page[..3]).None? {
          NothingBelow(mem, root, page, 3);
        } else {
          WalkStep(mem, root, page, 3);
        }
      }
    }
  }

  // ---------------------------------------------------------------- rights

  // Every entry grants no more than the entry above it.
  ghost predicate Covered(mem: Memory, root: nat) {
    forall q :: 2 <= |q| <= 4 && EntryAt(mem, root, q).Some? && EntryAt(mem, root, q).value.present ==>
      var up := EntryAt(mem, root, q[..|q| - 1]);
      && up.Some?
      && (EntryAt(mem, root, q).value.write ==> up.value.write)
      && (EntryAt(mem, root, q).value.user ==> up.value.user)
  }

  lemma CoveredAt(mem: Memory, root: nat, q: seq<nat>)
    requires Covered(mem, root) && 2 <= |q| <= 4 && EntryAt(mem, root, q).Some? && EntryAt(mem, root, q).value.present
    ensures var up := EntryAt(mem, root, q[..|q| - 1]);
            && up.Some?
            && (EntryAt(mem, root, q).value.write ==> up.value.write)
            && (EntryAt(mem, root, q).value.user ==> up.value.user)
  {
  }

  lemma CleanAt(mem: Memory, root: nat, free: set<nat>, p: seq<nat>)
    requires Tree(mem, root, free) && 0 < |p| <= 3
    requires EntryAt(mem, root, p).Some? && !EntryAt(mem, root, p).value.present
    ensures var e := EntryAt(mem, root, p).value;
            !e.pageSize && !e.write && !e.user
  {
  }

  // The entry that ends the walk: a 4 KiB page, or a large one.
  ghost function LastEntry(mem: Memory, root: nat, page: seq<nat>): Option<Entry>
    requires |page| == 4
  {
    if Large(EntryAt(mem, root, page[..2])) then EntryAt(mem, root, page[..2])
    else if Large(EntryAt(mem, root, page[..3])) then EntryAt(mem, root, page[..3])
    else EntryAt(mem, root, page)
  }

  lemma {:induction false} RightsFrom(mem: Memory, root: nat, page: seq<nat>, depth: nat)
    requires |page| == 4 && depth < 4 && Covered(mem, root) && TableAt(mem, root, page[..depth]).Some?
    requires depth > 1 ==> TableAt(mem, root, page[..2]).Some?
    ensures var a := Walk(mem, TableAt(mem, root, page[..depth]).value, depth, page);
            var e := EntryAt(mem, root, page[..depth + 1]);
            a.Some? ==>
              && e.Some? && e.value.present && (a.value.write ==> e.value.write) && (a.value.user ==> e.value.user)
              && LastEntry(mem, root, page).Some?
              && a.value.write == LastEntry(mem, root, page).value.write
              && a.value.user == LastEntry(mem, root, page).value.user
              && a.value.writeThrough == LastEntry(mem, root, page).value.writeThrough
              && a.value.cacheDisabled == LastEntry(mem, root, page).value.cacheDisabled
    decreases 4 - depth
  {
    Prefixes(page);
    WalkStep(mem, root, page, depth);
    if depth < 3 && TableAt(mem, root, page[..depth + 1]).Some? {
      RightsFrom(mem, root, page, depth + 1);
      assert page[..depth + 2][..depth + 1] == page[..depth + 1];
    }
  }

  // With covered entries, the rights along the walk are those of its last entry.
  lemma {:induction false} EffectiveRights(mem: Memory, root: nat, page: seq<nat>)
    requires |page| == 4 && Covered(mem, root)
    ensures var a := Walk(mem, root, 0, page);
            var e := LastEntry(mem, root, page);
            a.Some? ==>
              && e.Some? && a.value.write == e.value.write && a.value.user == e.value.user
              && a.value.writeThrough == e.value.writeThrough && a.value.cacheDisabled == e.value.cacheDisabled
  {
    RightsFrom(mem, root, page, 0);
  }

  // ---------------------------------------------------------------- writing one entry

  lemma EntryOfTable(mem: Memory, root: nat, path: seq<nat>, i: nat)
    requires TableAt(mem, root, path).Some? && TableAt(mem, root, path).value in mem
    requires i < |mem[TableAt(mem, root, path).value]|
    ensures EntryAt(mem, root, path + [i]) == Some(mem[TableAt(mem, root, path).value][i])
  {
    assert (path + [i])[..|path|] == path;
  }

  function SetEntry(mem: Memory, f: nat, i: nat, e: Entry): Memory
    requires f in mem && i < |mem[f]|
  {
    mem[f := mem[f][i := e]]
  }

  // Path q does not run through entry c.
  ghost predicate Avoids(q: seq<nat>, c: seq<nat>) {
    !(c <= q)
  }

  // Since no table hangs in two places, writing entry c is seen at c and below, nowhere else.
  lemma {:induction false} SetElsewhere(mem: Memory, root: nat, free: set<nat>, path: seq<nat>, i: nat, e: Entry,
      q: seq<nat>)
    requires Tree(mem, root, free) && |path| <= 3 && TableAt(mem, root, path).Some? && i < 512
    requires |q| <= 4 && Avoids(q, path + [i])
    ensures var mem' := SetEntry(mem, TableAt(mem, root, path).value, i, e);
            && TableAt(mem', root, q) == TableAt(mem, root, q)
            && (q != [] ==> EntryAt(mem', root, q) == EntryAt(mem, root, q))
    decreases |q|
  {
    if q != [] {
      var up := q[..|q| - 1];
      assert q == up + [q[|q| - 1]];
      SetElsewhere(mem, root, free, path, i, e, up);
      var mem' := SetEntry(mem, TableAt(mem, root, path).value, i, e);
      EntryIn(mem, root, q);
      EntryIn(mem', root, q);
      hide TableAt, EntryAt;
      assert TableAt(mem, root, up).Some? && TableAt(mem, root, up) == TableAt(mem, root, path) ==> up == path;
    }
  }

  // An entry is what its table holds, and leads to a table if it links.
  lemma EntryIn(mem: Memory, root: nat, q: seq<nat>)
    requires q != []
    ensures EntryAt(mem, root, q) ==
            match TableAt(mem, root, q[..|q| - 1])
            case None => None
            case Some(f) => if f in mem && q[|q| - 1] < |mem[f]| then Some(mem[f][q[|q| - 1]]) else None
    ensures TableAt(mem, root, q) ==
            match EntryAt(mem, root, q)
            case None => None
            case Some(e) => if Links(e, |q| - 1) then Some(e.frame) else None
  {
  }

  lemma {:induction false} SetHere(mem: Memory, root: nat, free: set<nat>, path: seq<nat>, i: nat, e: Entry)
    requires Tree(mem, root, free) && |path| <= 3 && TableAt(mem, root, path).Some? && i < 512
    ensures var mem' := SetEntry(mem, TableAt(mem, root, path).value, i, e);
            EntryAt(mem', root, path + [i]) == Some(e)
  {
    SetElsewhere(mem, root, free, path, i, e, path);
    assert (path + [i])[..|path|] == path;
  }

  // A write that leaves the link as it was is seen at that entry only.
  lemma {:induction false} SetSameLink(mem: Memory, root: nat, free: set<nat>, path: seq<nat>, i: nat, e: Entry,
      q: seq<nat>)
    requires Tree(mem, root, free) && |path| <= 2 && TableAt(mem, root, path).Some? && i < 512
    requires EntryAt(mem, root, path + [i]).Some?
    requires var was := EntryAt(mem, root, path + [i]).value;
             Links(e, |path|) == Links(was, |path|) && e.frame == was.frame
    requires |q| <= 4
    ensures var mem' := SetEntry(mem, TableAt(mem, root, path).value, i, e);
            && TableAt(mem', root, q) == TableAt(mem, root, q)
            && (q != [] && q != path + [i] ==> EntryAt(mem', root, q) == EntryAt(mem, root, q))
    decreases |q|
  {
    var c := path + [i];
    if Avoids(q, c) {
      SetElsewhere(mem, root, free, path, i, e, q);
    } else if q == c {
      SetHere(mem, root, free, path, i, e);
      assert c[..|path|] == path && c[|path|] == i;
    } else {
      SetSameLink(mem, root, free, path, i, e, q[..|q| - 1]);
      assert (path + [i])[..|path|] == path;
    }
  }

  // Clearing a frame that is no table is not seen by any walk.
  lemma {:induction false} ClearFree(mem: Memory, root: nat, free: set<nat>, g: nat, t: seq<Entry>, q: seq<nat>)
    requires Tree(mem, root, free) && g in free && |q| <= 4
    ensures var mem' := mem[g := t];
            && TableAt(mem', root, q) == TableAt(mem, root, q)
            && (q != [] ==> EntryAt(mem', root, q) == EntryAt(mem, root, q))
    decreases |q|
  {
    if q != [] {
      ClearFree(mem, root, free, g, t, q[..|q| - 1]);
    }
  }

  lemma {:induction false} NoneBelow(mem: Memory, root: nat, c: seq<nat>, q: seq<nat>)
    requires c != [] && c <= q && q != c && (EntryAt(mem, root, c).None? || !EntryAt(mem, root, c).value.present)
    ensures EntryAt(mem, root, q).None? && TableAt(mem, root, q).None?
    decreases |q|
  {
    var up := q[..|q| - 1];
    if up != c {
      NoneBelow(mem, root, c, up);
    }
  }

  // A new table, with entries t, is hung into the empty entry i of table f.
  function LinkNew(mem: Memory, f: nat, i: nat, e: Entry, t: seq<Entry>): Memory
    requires f in mem && i < |mem[f]| && e.frame != f
  {
    SetEntry(mem[e.frame := t], f, i, e)
  }

  // The new table leads nowhere yet, and its absent entries, if not of pages, are clean.
  ghost predicate CanLink(mem: Memory, root: nat, free: set<nat>, path: seq<nat>, i: nat, e: Entry, t: seq<Entry>) {
    && Tree(mem, root, free) && |path| <= 2 && TableAt(mem, root, path).Some? && i < 512
    && e.frame in free && e.present && !e.pageSize
    && |t| == 512 && (forall j :: 0 <= j < 512 ==> !Links(t[j], |path| + 1))
    && (|path| < 2 ==> forall j :: 0 <= j < 512 && !t[j].present ==> !t[j].pageSize && !t[j].write && !t[j].user)
    && EntryAt(mem, root, path + [i]).Some? && !EntryAt(mem, root, path + [i]).value.present
  }

  lemma {:induction false} LinkAt(mem: Memory, root: nat, free: set<nat>, path: seq<nat>, i: nat, e: Entry,
      t: seq<Entry>, q: seq<nat>)
    requires CanLink(mem, root, free, path, i, e, t) && |q| <= 4
    ensures var c := path + [i];
            var mem' := LinkNew(mem, TableAt(mem, root, path).value, i, e, t);
            && (Avoids(q, c) ==> TableAt(mem', root, q) == TableAt(mem, root, q)
                                 && (q != [] ==> EntryAt(mem', root, q) == EntryAt(mem, root, q)))
            && (q == c ==> TableAt(mem', root, q) == Some(e.frame) && EntryAt(mem', root, q) == Some(e))
            && (c < q ==> TableAt(mem', root, q).None? && EntryAt(mem, root, q).None?
                          && EntryAt(mem', root, q) ==
                             if |q| == |c| + 1 && q[|c|] < 512 then Some(t[q[|c|]]) else None)
    decreases |q|
  {
    var c, f, g := path + [i], TableAt(mem, root, path).value, e.frame;
    var mem1 := mem[g := t];
    ClearedTree(mem, root, free, g, t);
    ClearFree(mem, root, free, g, t, path);
    ClearFree(mem, root, free, g, t, q);
    if Avoids(q, c) {
      SetElsewhere(mem1, root, free - {g}, path, i, e, q);
    } else if q == c {
      SetHere(mem1, root, free - {g}, path, i, e);
    } else {
      NoneBelow(mem, root, c, q);
      LinkAt(mem, root, free, path, i, e, t, q[..|q| - 1]);
    }
  }

  lemma {:induction false} ClearedTree(mem: Memory, root: nat, free: set<nat>, g: nat, t: seq<Entry>)
    requires Tree(mem, root, free) && g in free
    ensures Tree(mem[g := t], root, free - {g})
  {
    var mem' := mem[g := t];
    forall p | |p| <= 4
      ensures TableAt(mem', root, p) == TableAt(mem, root, p)
      ensures p != [] ==> EntryAt(mem', root, p) == EntryAt(mem, root, p)
    {
      ClearFree(mem, root, free, g, t, p);
    }
  }

  lemma {:induction false} LinkTree(mem: Memory, root: nat, free: set<nat>, path: seq<nat>, i: nat, e: Entry,
      t: seq<Entry>)
    requires CanLink(mem, root, free, path, i, e, t)
    ensures Tree(LinkNew(mem, TableAt(mem, root, path).value, i, e, t), root, free - {e.frame})
  {
    hide TableAt, EntryAt;
    var c := path + [i];
    var mem' := LinkNew(mem, TableAt(mem, root, path).value, i, e, t);
    forall p | |p| <= 4
      ensures Avoids(p, c) ==> TableAt(mem', root, p) == TableAt(mem, root, p)
                               && (p != [] ==> EntryAt(mem', root, p) == EntryAt(mem, root, p))
      ensures p == c ==> TableAt(mem', root, p) == Some(e.frame) && EntryAt(mem', root, p) == Some(e)
      ensures c < p ==> TableAt(mem', root, p).None?
                        && (EntryAt(mem', root, p).Some? ==> EntryAt(mem', root, p).value in t)
    {
      LinkAt(mem, root, free, path, i, e, t, p);
    }
  }

  // A linked table takes its frame out of the free ones.
  lemma {:induction false} LinkAccounted(mem: Memory, root: nat, free: set<nat>, path: seq<nat>, i: nat, e: Entry,
      t: seq<Entry>)
    requires CanLink(mem, root, free, path, i, e, t)
    ensures Accounted(mem, LinkNew(mem, TableAt(mem, root, path).value, i, e, t), root, free, free - {e.frame})
  {
    var c, mem' := path + [i], LinkNew(mem, TableAt(mem, root, path).value, i, e, t);
    assert EntryAt(mem, root, c).Some? && TableAt(mem, root, c).None?;
    forall q | |q| <= 4
      ensures q != c ==> TableAt(mem', root, q) == TableAt(mem, root, q)
      ensures q == c ==> TableAt(mem', root, q) == Some(e.frame)
    {
      LinkAt(mem, root, free, path, i, e, t, q);
    }
    hide TableAt, EntryAt;
    assert NewTable(mem, mem', root, e.frame);
  }

  lemma {:induction false} SetTree(mem: Memory, root: nat, free: set<nat>, path: seq<nat>, i: nat, e: Entry)
    requires Tree(mem, root, free) && |path| <= 2 && TableAt(mem, root, path).Some? && i < 512
    requires EntryAt(mem, root, path + [i]).Some?
    requires var was := EntryAt(mem, root, path + [i]).value;
             Links(e, |path|) && Links(was, |path|) && e.frame == was.frame
    ensures Tree(SetEntry(mem, TableAt(mem, root, path).value, i, e), root, free)
  {
    var mem' := SetEntry(mem, TableAt(mem, root, path).value, i, e);
    SetHere(mem, root, free, path, i, e);
    forall p | |p| <= 4
      ensures TableAt(mem', root, p) == TableAt(mem, root, p)
      ensures p != [] && p != path + [i] ==> EntryAt(mem', root, p) == EntryAt(mem, root, p)
    {
      SetSameLink(mem, root, free, path, i, e, p);
    }
  }

  lemma {:induction false} SetLeafTree(mem: Memory, root: nat, free: set<nat>, page: seq<nat>, e: Entry)
    requires Tree(mem, root, free) && IsPage(page) && TableAt(mem, root, page[..3]).Some?
    ensures Tree(SetEntry(mem, TableAt(mem, root, page[..3]).value, page[3], e), root, free)
  {
    var mem' := SetEntry(mem, TableAt(mem, root, page[..3]).value, page[3], e);
    assert page[..3] + [page[3]] == page;
    forall p | |p| <= 3
      ensures TableAt(mem', root, p) == TableAt(mem, root, p)
      ensures p != [] ==> EntryAt(mem', root, p) == EntryAt(mem, root, p)
    {
      SetElsewhere(mem, root, free, page[..3], page[3], e, p);
    }
  }

  // ---------------------------------------------------------------- what a write leaves alone

  // All entries but c are as before, or belong to a table that has just been hung in, still empty.
  ghost predicate Agrees(mem: Memory, mem': Memory, root: nat, c: seq<nat>) {
    forall q :: 0 < |q| <= 4 && q != c ==>
      EntryAt(mem', root, q) == EntryAt(mem, root, q)
      || (EntryAt(mem, root, q).None? && EntryAt(mem', root, q) == Some(ZERO))
  }

  // An upper entry that leads on now, and granted no more before.
  ghost predicate Widened(mem: Memory, mem': Memory, root: nat, c: seq<nat>) {
    && 0 < |c| <= 3 && EntryAt(mem, root, c).Some? && EntryAt(mem', root, c).Some?
    && var e, e' := EntryAt(mem, root, c).value, EntryAt(mem', root, c).value;
       && e'.present && (|c| > 1 ==> !e.pageSize && !e'.pageSize)
       && (e.write ==> e'.write) && (e.user ==> e'.user)
  }

  lemma {:induction false} WidenedCovers(mem: Memory, mem': Memory, root: nat, c: seq<nat>)
    requires Covered(mem, root) && Agrees(mem, mem', root, c) && Widened(mem, mem', root, c)
    requires |c| >= 2 ==> EntryAt(mem', root, c[..|c| - 1]).Some?
    requires |c| >= 2 ==>
               var up, e' := EntryAt(mem', root, c[..|c| - 1]).value, EntryAt(mem', root, c).value;
               (e'.write ==> up.write) && (e'.user ==> up.user)
    ensures Covered(mem', root)
  {
    forall q | 2 <= |q| <= 4 && EntryAt(mem', root, q).Some? && EntryAt(mem', root, q).value.present
      ensures var up := EntryAt(mem', root, q[..|q| - 1]);
              && up.Some?
              && (EntryAt(mem', root, q).value.write ==> up.value.write)
              && (EntryAt(mem', root, q).value.user ==> up.value.user)
    {
      if q != c {
        assert EntryAt(mem', root, q) == EntryAt(mem, root, q);
      }
    }
  }

  // Neither the frames nor the rights of any page change.
  lemma {:induction false} WidenedKeepsWalks(mem: Memory, mem': Memory, root: nat, c: seq<nat>, page: seq<nat>)
    requires Covered(mem, root) && Covered(mem', root)
    requires Agrees(mem, mem', root, c) && Widened(mem, mem', root, c) && |page| == 4
    ensures Walk(mem', root, 0, page) == Walk(mem, root, 0, page)
  {
    hide Walk, TableAt, EntryAt, Covered;
    WalkIsEntries(mem, root, page);
    WalkIsEntries(mem', root, page);
    EffectiveRights(mem, root, page);
    EffectiveRights(mem', root, page);
    assert |page[..2]| == 2 && |page[..3]| == 3;
  }
}
