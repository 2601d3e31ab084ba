/** Where the large allocator puts a region: src/high/memory/heap.cpp:493-507, on the list of the regions
    that its map holds, ordered by address.  An entry has the address as its key and the size in bytes as
    its value. */
module LargeRegions {
  import opened BTreeModel
  import opened BTreeObject
  import opened Common

  const LOW: nat := 116 * 0x100_0000_0000
  const HIGH: nat := 126 * 0x100_0000_0000

  // Regions of whole pages, in the arena.
  ghost predicate InArena(e: Entry) {
    LOW <= e.key && e.value > 0 && e.key + e.value <= HIGH && e.key % PAGE == 0 && e.value % PAGE == 0
  }

  // In order, and no two of them overlap.
  ghost predicate Regions(c: seq<Entry>) {
    && (forall i :: 0 <= i < |c| ==> InArena(c[i]))
    && forall i, j :: 0 <= i < j < |c| ==> c[i].key + c[i].value <= c[j].key
  }

  // The callable of malloc (lines 497-503): on to the end of the region, or stop before a wide gap.
  // REPAIR (line 501): the source multiplies the value, which is in bytes, with the page size.
  function GapStep(bytes: nat): (int, Entry) -> (int, bool) {
    (last: int, e: Entry) => if e.key - last > bytes then (last, false) else (e.key + e.value, true)
  }

  // Where the search ends.
  ghost function Start(c: seq<Entry>, last: int, bytes: nat): int {
    if c == [] then last
    else if c[0].key - last > bytes then last
    else Start(c[1..], c[0].key + c[0].value, bytes)
  }

  lemma {:induction false} VisitIsStart(c: seq<Entry>, last: int, bytes: nat)
    ensures Visit(c, GapStep(bytes), last) == Start(c, last, bytes)
    decreases |c|
  {
    if c != [] {
      VisitIsStart(c[1..], c[0].key + c[0].value, bytes);
    }
  }

  // The answer stays `stop` on every later region, so that the tree's walk may overlook it.
  lemma GapStepFreezes(bytes: nat)
    ensures FreezesOnStop(GapStep(bytes))
  {
    var step := GapStep(bytes);
    forall s: int, e: Entry | !step(s, e).1
      ensures Frozen(step, step(s, e).0, e.key)
    {
    }
  }

  // The search never goes back: its subtraction is of a smaller address, and cannot wrap around.
  ghost predicate Forward(c: seq<Entry>, last: int) {
    forall i :: 0 <= i < |c| ==> last <= c[i].key
  }

  lemma ForwardOn(c: seq<Entry>)
    requires Regions(c) && c != []
    ensures Regions(c[1..]) && Forward(c[1..], c[0].key + c[0].value)
  {
  }

  // No byte of the region is in bytes start to start + bytes - 1.
  predicate Apart(e: Entry, start: int, bytes: int) {
    e.key + e.value <= start || start + bytes <= e.key
  }

  lemma {:induction false} StartIsFree(c: seq<Entry>, last: int, bytes: nat)
    requires Regions(c) && Forward(c, last)
    ensures last <= Start(c, last, bytes)
    ensures forall i :: 0 <= i < |c| ==> Apart(c[i], Start(c, last, bytes), bytes)
    decreases |c|
  {
    if c != [] && c[0].key - last <= bytes {
      ForwardOn(c);
      StartIsFree(c[1..], c[0].key + c[0].value, bytes);
    }
  }

  ghost predicate Ends(c: seq<Entry>, start: int) {
    exists i :: 0 <= i < |c| && start == c[i].key + c[i].value
  }

  // The places that the strict test accepts: the beginning of the arena or the end of a region, with
  // more than `bytes` bytes to every region that follows.
  ghost predicate Accepts(c: seq<Entry>, last: int, bytes: nat, start: int) {
    && (start == last || Ends(c, start))
    && forall i :: 0 <= i < |c| ==> c[i].key + c[i].value <= start || c[i].key - start > bytes
  }

  lemma EndsTail(c: seq<Entry>, start: int)
    requires c != []
    ensures Ends(c, start) <==> start == c[0].key + c[0].value || Ends(c[1..], start)
  {
    if i :| 0 <= i < |c[1..]| && start == c[1..][i].key + c[1..][i].value {
      assert start == c[i + 1].key + c[i + 1].value;
    }
    if i :| 0 < i < |c| && start == c[i].key + c[i].value {
      assert start == c[1..][i - 1].key + c[1..][i - 1].value;
    }
  }

  lemma {:induction false} StartIsAccepted(c: seq<Entry>, last: int, bytes: nat)
    requires Regions(c) && Forward(c, last)
    ensures Accepts(c, last, bytes, Start(c, last, bytes))
    decreases |c|
  {
    if c != [] && c[0].key - last <= bytes {
      var end := c[0].key + c[0].value;
      ForwardOn(c);
      StartIsAccepted(c[1..], end, bytes);
      StartIsFree(c[1..], end, bytes);
      EndsTail(c, Start(c, last, bytes));
    }
  }

  // malloc takes the lowest of them.
  lemma {:induction false} StartIsLowest(c: seq<Entry>, last: int, bytes: nat, other: int)
    requires Regions(c) && Forward(c, last) && Accepts(c, last, bytes, other)
    ensures Start(c, last, bytes) <= other
    decreases |c|
  {
    if c != [] {
      EndsTail(c, other);
      if c[0].key - last <= bytes {
        ForwardOn(c);
        StartIsLowest(c[1..], c[0].key + c[0].value, bytes, other);
      }
    }
  }

  // ---------------------------------------------------------------- a region more, a region less

  lemma {:induction false} RegionAdded(c: seq<Entry>, at: nat, e: Entry)
    requires Regions(c) && InArena(e) && at <= |c| && Sorted(c[..at] + [e] + c[at..])
    requires forall i :: 0 <= i < |c| ==> Apart(c[i], e.key, e.value)
    ensures Regions(c[..at] + [e] + c[at..])
  {
    var c' := c[..at] + [e] + c[at..];
    forall i | 0 <= i < |c'|
      ensures c'[i] == if i < at then c[i] else if i == at then e else c[i - 1]
    {
    }
    forall i, j | 0 <= i < j < |c'|
      ensures c'[i].key + c'[i].value <= c'[j].key
    {
      assert c'[i].key <= c'[j].key;
    }
  }

  lemma RegionRemoved(c: seq<Entry>, at: nat)
    requires Regions(c) && at < |c|
    ensures Regions(c[..at] + c[at + 1..])
  {
  }

  // An address begins one region only.
  lemma OneRegion(c: seq<Entry>, e: Entry, at: nat)
    requires Regions(c) && e in c && at < |c| && c[at].key == e.key
    ensures c[at] == e
  {
    var i :| 0 <= i < |c| && c[i] == e;
    assert InArena(c[i]) && InArena(c[at]);
  }

  // ---------------------------------------------------------------- as written

  // Lines 497-503 as they stand: unsigned subtraction, and a size in bytes taken for one in pages.
  const WORD: int := 0x1_0000_0000_0000_0000

  function Minus(a: int, b: int): int {
    (a - b) % WORD
  }

  function WrittenStep(bytes: nat): (int, Entry) -> (int, bool) {
    (last: int, e: Entry) =>
      if Minus(e.key, last) > bytes then (last, false) else (e.key + e.value * PAGE, true)
  }

  // Where the walk over the tree, with the stops that it overlooks, puts a region.
  ghost function WrittenPlace(t: Tree, bytes: nat): int {
    IterTree(t, WrittenStep(bytes), LOW)
  }

  // The regions that the walk moves on to when no gap is wide enough: those that do not begin before the
  // inflated end of the last one.  At the others the subtraction wraps around.
  function RecordStep(): ((int, seq<Entry>), Entry) -> ((int, seq<Entry>), bool) {
    (s: (int, seq<Entry>), e: Entry) =>
      if e.key < s.0 then (s, false) else ((e.key + e.value * PAGE, s.1 + [e]), true)
  }

  ghost function Noticed(t: Tree): seq<Entry> {
    IterTree(t, RecordStep(), (LOW as int, [])).1
  }

  // The inflated end of the j-th region noticed; LOW before the first.
  ghost function EndOf(a: seq<Entry>, j: nat): int
    requires j <= |a|
  {
    if j == 0 then LOW else a[j - 1].key + a[j - 1].value * PAGE
  }

  // The search among the regions noticed: before the first gap wider than `bytes`.
  ghost function PlaceIn(a: seq<Entry>, bytes: nat): (j: nat)
    ensures j <= |a|
    ensures forall i :: 0 <= i < j ==> a[i].key - EndOf(a, i) <= bytes
    ensures j < |a| ==> a[j].key - EndOf(a, j) > bytes
  {
    PlaceFrom(a, 0, bytes)
  }

  ghost function PlaceFrom(a: seq<Entry>, i: nat, bytes: nat): (j: nat)
    requires i <= |a|
    ensures i <= j <= |a|
    ensures forall k :: i <= k < j ==> a[k].key - EndOf(a, k) <= bytes
    ensures j < |a| ==> a[j].key - EndOf(a, j) > bytes
    decreases |a| - i
  {
    if i == |a| || a[i].key - EndOf(a, i) > bytes then i else PlaceFrom(a, i + 1, bytes)
  }

  lemma PlaceUnique(a: seq<Entry>, bytes: nat, j: nat)
    requires j <= |a| && forall i :: 0 <= i < j ==> a[i].key - EndOf(a, i) <= bytes
    requires j < |a| ==> a[j].key - EndOf(a, j) > bytes
    ensures PlaceIn(a, bytes) == j
  {
  }

  // ---------------------------------------------------------------- the walk, and the regions it notices

  // Elements that leave the state alone are walked over without trace.
  lemma {:induction false} StillIter<S>(keys: seq<Entry>, kids: seq<Tree>, step: (S, Entry) -> (S, bool), s: S)
    requires RegularKids(keys, kids) && forall e :: e in Weave(keys, kids) ==> step(s, e).0 == s
    ensures IterKids(keys, kids, step, s) == s
    decreases kids, |keys|
  {
    var w := Weave(keys, kids);
    if kids == [] {
      if keys != [] {
        assert w[0] in w && forall e :: e in keys[1..] ==> e in w;
        StillIter(keys[1..], [], step, s);
      }
    } else {
      var c := kids[0];
      var rest := if keys == [] then [] else [keys[0]] + Weave(keys[1..], kids[1..]);
      assert w == Inorder(c) + rest;
      assert forall e :: e in Inorder(c) ==> e in w;
      StillIter(c.keys, c.kids, step, s);
      if keys != [] {
        assert keys[0] in rest && keys[0] in w;
        assert forall e :: e in Weave(keys[1..], kids[1..]) ==> e in rest && e in w;
        StillIter(keys[1..], kids[1..], step, s);
      }
    }
  }

  // The two walks next to each other: as long as no gap was wide enough, they are at the same place; once
  // one was, the place is settled, and no later element changes it.
  ghost predicate Related(s: int, r: (int, seq<Entry>), bytes: nat) {
    && r.0 == EndOf(r.1, |r.1|)
    && s == EndOf(r.1, PlaceIn(r.1, bytes))
  }

  ghost predicate Settled(r: (int, seq<Entry>), bytes: nat) {
    PlaceIn(r.1, bytes) < |r.1|
  }

  lemma {:induction false} PlaceStays(a: seq<Entry>, b: seq<Entry>, bytes: nat)
    requires a <= b && PlaceIn(a, bytes) < |a|
    ensures PlaceIn(b, bytes) == PlaceIn(a, bytes) && EndOf(b, PlaceIn(b, bytes)) == EndOf(a, PlaceIn(a, bytes))
  {
    var j := PlaceIn(a, bytes);
    assert forall i :: 0 <= i < |a| ==> a[i] == b[i];
    assert forall i :: 0 <= i <= |a| ==> EndOf(a, i) == EndOf(b, i);
    PlaceUnique(b, bytes, j);
  }

  // No end is farther away than this.
  const FAR: int := HIGH + (HIGH - LOW) * PAGE

  ghost predicate AllInArena(a: seq<Entry>) {
    forall e :: e in a ==> InArena(e)
  }

  lemma EndBounds(a: seq<Entry>, j: nat)
    requires AllInArena(a) && j <= |a|
    ensures LOW <= EndOf(a, j) <= FAR
  {
    if j > 0 {
      assert InArena(a[j - 1]);
    }
  }

  // The unsigned test of the source, in these bounds.
  lemma MinusWraps(key: int, last: int, bytes: nat)
    requires LOW <= key <= HIGH && LOW <= last <= FAR && bytes <= HIGH
    ensures Minus(key, last) > bytes <==> key < last || key - last > bytes
  {
    if key < last {
      assert (key - last) % WORD == key - last + WORD;
    } else {
      assert (key - last) % WORD == key - last;
    }
  }

  // What the record holds comes from the elements walked over.
  ghost predicate RecordFine(r: (int, seq<Entry>), r': (int, seq<Entry>), w: seq<Entry>) {
    && r.1 <= r'.1 && r'.0 == EndOf(r'.1, |r'.1|) && AllInArena(r'.1)
    && forall x :: x in r'.1 ==> x in r.1 || x in w
  }

  lemma EndAppended(a: seq<Entry>, e: Entry)
    ensures EndOf(a + [e], |a|) == EndOf(a, |a|) && EndOf(a + [e], |a| + 1) == e.key + e.value * PAGE
    ensures forall j :: 0 <= j <= |a| ==> EndOf(a + [e], j) == EndOf(a, j)
  {
    assert forall i :: 0 <= i < |a| ==> (a + [e])[i] == a[i];
  }

  // A node's loop, from its first key on.
  ghost function FromKey<S>(keys: seq<Entry>, kids: seq<Tree>, step: (S, Entry) -> (S, bool), s: S): S {
    if keys == [] then s
    else if !step(s, keys[0]).1 then step(s, keys[0]).0
    else IterKids(keys[1..], RestKids(kids), step, step(s, keys[0]).0)
  }

  lemma FirstThenKey<S>(keys: seq<Entry>, kids: seq<Tree>, step: (S, Entry) -> (S, bool), s: S)
    ensures IterKids(keys, kids, step, s) ==
            FromKey(keys, kids, step, if kids == [] then s else IterKids(kids[0].keys, kids[0].kids, step, s))
  {
  }

  lemma {:induction false} RecordIsFine(keys: seq<Entry>, kids: seq<Tree>, r: (int, seq<Entry>))
    requires RegularKids(keys, kids) && AllInArena(Weave(keys, kids))
    requires r.0 == EndOf(r.1, |r.1|) && AllInArena(r.1)
    ensures RecordFine(r, IterKids(keys, kids, RecordStep(), r), Weave(keys, kids))
    decreases kids, |keys|
  {
    WeaveParts(keys, kids);
    FirstThenKey(keys, kids, RecordStep(), r);
    var r1 := r;
    if kids != [] {
      r1 := IterKids(kids[0].keys, kids[0].kids, RecordStep(), r);
      RecordIsFine(kids[0].keys, kids[0].kids, r);
      assert Weave(kids[0].keys, kids[0].kids) == Inorder(kids[0]);
    }
    hide Weave, Inorder, RegularKids, InArena, IterKids;
    if keys != [] && RecordStep()(r1, keys[0]).1 {
      var r2 := RecordStep()(r1, keys[0]).0;
      EndAppended(r1.1, keys[0]);
      hide EndOf;
      RecordIsFine(keys[1..], RestKids(kids), r2);
    }
  }

  // What comes after the first kid in the loop over a node.
  ghost function RestKids(kids: seq<Tree>): seq<Tree> {
    if kids == [] then [] else kids[1..]
  }

  // A weave is what its first kid holds, its first key, and the rest.
  lemma WeaveParts(keys: seq<Entry>, kids: seq<Tree>)
    requires RegularKids(keys, kids)
    ensures kids != [] ==> RegularKids(kids[0].keys, kids[0].kids)
    ensures keys != [] ==> RegularKids(keys[1..], RestKids(kids))
    ensures var w := Weave(keys, kids);
            var first := if kids == [] then [] else Inorder(kids[0]);
            && w == first + (if keys == [] then [] else [keys[0]] + Weave(keys[1..], RestKids(kids)))
            && (forall e :: e in first ==> e in w)
            && (keys != [] ==> keys[0] in w && forall e :: e in Weave(keys[1..], RestKids(kids)) ==> e in w)
  {
    var w := Weave(keys, kids);
    var first := if kids == [] then [] else Inorder(kids[0]);
    var rest := if keys == [] then [] else [keys[0]] + Weave(keys[1..], RestKids(kids));
    assert w == first + rest;
    forall e | e in first || e in rest
      ensures e in w
    {
    }
    assert keys != [] ==> keys[0] in rest && forall e :: e in Weave(keys[1..], RestKids(kids)) ==> e in rest;
  }

  ghost predicate Below(a: seq<Entry>, w: seq<Entry>) {
    forall x, e :: x in a && e in w ==> x.key <= e.key
  }

  // A wide gap has been found: nothing that is still walked over changes the place.
  lemma {:induction false} SettledWalk(keys: seq<Entry>, kids: seq<Tree>, s: int, r: (int, seq<Entry>), bytes: nat)
    requires RegularKids(keys, kids) && AllInArena(Weave(keys, kids)) && bytes <= HIGH
    requires Related(s, r, bytes) && Settled(r, bytes) && AllInArena(r.1) && Below(r.1, Weave(keys, kids))
    ensures IterKids(keys, kids, WrittenStep(bytes), s) == s
    ensures Related(s, IterKids(keys, kids, RecordStep(), r), bytes)
  {
    forall e | e in Weave(keys, kids)
      ensures WrittenStep(bytes)(s, e).0 == s
    {
      SettledKey(e, s, r, bytes);
    }
    StillIter(keys, kids, WrittenStep(bytes), s);
    var r' := IterKids(keys, kids, RecordStep(), r);
    RecordIsFine(keys, kids, r);
    PlaceStays(r.1, r'.1, bytes);
  }

  // One region, with no wide gap before it.
  lemma {:induction false} KeyNoticed(e: Entry, s: int, r: (int, seq<Entry>), bytes: nat)
    requires InArena(e) && bytes <= HIGH && Related(s, r, bytes) && !Settled(r, bytes) && AllInArena(r.1)
    requires e.key >= r.0
    ensures var r' := (e.key + e.value * PAGE, r.1 + [e]);
            && RecordStep()(r, e) == (r', true)
            && (e.key - r.0 > bytes ==>
                  WrittenStep(bytes)(s, e) == (s, false) && Related(s, r', bytes) && Settled(r', bytes))
            && (e.key - r.0 <= bytes ==>
                  WrittenStep(bytes)(s, e) == (r'.0, true) && Related(r'.0, r', bytes) && !Settled(r', bytes))
  {
    var a := r.1;
    EndBounds(a, |a|);
    MinusWraps(e.key, s, bytes);
    EndAppended(a, e);
    PlaceUnique(a + [e], bytes, if e.key - r.0 > bytes then |a| else |a| + 1);
  }

  lemma KeyWraps(e: Entry, s: int, r: (int, seq<Entry>), bytes: nat)
    requires InArena(e) && bytes <= HIGH && Related(s, r, bytes) && !Settled(r, bytes) && AllInArena(r.1)
    requires e.key < r.0
    ensures RecordStep()(r, e) == (r, false) && WrittenStep(bytes)(s, e) == (s, false)
  {
    EndBounds(r.1, |r.1|);
    MinusWraps(e.key, s, bytes);
  }

  // The elements of a node's parts are in order, and none comes before what was recorded earlier.
  lemma {:induction false} PartsInOrder(keys: seq<Entry>, kids: seq<Tree>, a: seq<Entry>)
    requires RegularKids(keys, kids) && AllInArena(Weave(keys, kids)) && Sorted(Weave(keys, kids))
    requires Below(a, Weave(keys, kids))
    ensures kids != [] ==>
              var c := kids[0];
              && RegularKids(c.keys, c.kids) && AllInArena(Weave(c.keys, c.kids)) && Sorted(Weave(c.keys, c.kids))
              && Below(a, Weave(c.keys, c.kids))
              && (keys != [] ==> forall x :: x in Inorder(c) ==> x.key <= keys[0].key)
    ensures keys != [] ==>
              var rest := Weave(keys[1..], RestKids(kids));
              && InArena(keys[0]) && RegularKids(keys[1..], RestKids(kids)) && AllInArena(rest) && Sorted(rest)
              && Below([keys[0]], rest) && Below(a, [keys[0]] + rest)
  {
    WeaveParts(keys, kids);
    var w := Weave(keys, kids);
    var first := if kids == [] then [] else Inorder(kids[0]);
    var rest := if keys == [] then [] else Weave(keys[1..], RestKids(kids));
    var tail := if keys == [] then [] else [keys[0]] + rest;
    if kids != [] {
      assert Weave(kids[0].keys, kids[0].kids) == first;
      SortedParts(first, tail);
    }
    hide Weave, RegularKids, InArena;
    if keys != [] {
      SortedAround(first, keys[0], rest);
      assert forall e :: e in tail <==> e == keys[0] || e in rest;
    }
  }

  lemma SortedAround(first: seq<Entry>, k: Entry, rest: seq<Entry>)
    requires Sorted(first + ([k] + rest))
    ensures Sorted(first) && Sorted(rest) && Below([k], rest) && forall x :: x in first ==> x.key <= k.key
  {
    var w, n := first + ([k] + rest), |first|;
    SortedParts(first, [k] + rest);
    SortedParts([k], rest);
    assert w[n] == k;
    forall x | x in first
      ensures x.key <= k.key
    {
      var i :| 0 <= i < |first| && first[i] == x;
      assert w[i] == x;
    }
    forall e | e in rest
      ensures k.key <= e.key
    {
      var i :| 0 <= i < |rest| && rest[i] == e;
      assert w[n + 1 + i] == e;
    }
  }

  // What has been recorded when the first kid is done lies before the first key, and so before the rest.
  lemma {:induction false} RecordAfter(keys: seq<Entry>, kids: seq<Tree>, s: int, r: (int, seq<Entry>), bytes: nat)
    requires RegularKids(keys, kids) && AllInArena(Weave(keys, kids)) && Sorted(Weave(keys, kids)) && kids != []
    requires Related(s, r, bytes) && AllInArena(r.1) && Below(r.1, Weave(keys, kids))
    ensures var r1 := IterKids(kids[0].keys, kids[0].kids, RecordStep(), r);
            && AllInArena(r1.1)
            && (keys != [] ==> Below(r1.1, [keys[0]] + Weave(keys[1..], RestKids(kids))))
  {
    PartsInOrder(keys, kids, r.1);
    RecordIsFine(kids[0].keys, kids[0].kids, r);
  }

  lemma NoticedInOrder(keys: seq<Entry>, kids: seq<Tree>, a: seq<Entry>)
    requires keys != [] && InArena(keys[0]) && AllInArena(a)
    requires Below(a, [keys[0]] + Weave(keys[1..], RestKids(kids)))
    requires Below([keys[0]], Weave(keys[1..], RestKids(kids)))
    ensures AllInArena(a + [keys[0]]) && Below(a + [keys[0]], Weave(keys[1..], RestKids(kids)))
  {
    hide Weave;
    var rest := Weave(keys[1..], RestKids(kids));
    assert forall e :: e in rest ==> e in [keys[0]] + rest;
  }

  lemma {:induction false} SettledFromKey(keys: seq<Entry>, kids: seq<Tree>, s: int, r: (int, seq<Entry>), bytes: nat)
    requires keys != [] && bytes <= HIGH && Related(s, r, bytes) && Settled(r, bytes) && AllInArena(r.1)
    requires InArena(keys[0]) && RegularKids(keys[1..], RestKids(kids)) && AllInArena(Weave(keys[1..], RestKids(kids)))
    requires Below([keys[0]], Weave(keys[1..], RestKids(kids)))
    requires Below(r.1, [keys[0]] + Weave(keys[1..], RestKids(kids)))
    ensures Related(FromKey(keys, kids, WrittenStep(bytes), s), FromKey(keys, kids, RecordStep(), r), bytes)
  {
    hide FromKey, IterKids, Weave, PlaceIn, EndOf, InArena, RegularKids, Below, AllInArena, Related, Settled;
    var e, rest := keys[0], Weave(keys[1..], RestKids(kids));
    NotAfter(e, rest, r.1);
    SettledKey(e, s, r, bytes);
    FromKeyStops(keys, kids, WrittenStep(bytes), s);
    if e.key < r.0 {
      assert RecordStep()(r, e) == (r, false);
      FromKeyStops(keys, kids, RecordStep(), r);
    } else {
      var r2 := (e.key + e.value * PAGE, r.1 + [e]);
      assert RecordStep()(r, e) == (r2, true);
      FromKeyGoesOn(keys, kids, RecordStep(), r);
      StillSettled(e, s, r, bytes);
      NoticedInOrder(keys, kids, r.1);
      hide *;
      SettledWalk(keys[1..], RestKids(kids), s, r2, bytes);
    }
  }

  lemma NotAfter(e: Entry, rest: seq<Entry>, a: seq<Entry>)
    requires Below(a, [e] + rest)
    ensures forall x :: x in a ==> x.key <= e.key
  {
    assert e in [e] + rest;
  }

  lemma StillSettled(e: Entry, s: int, r: (int, seq<Entry>), bytes: nat)
    requires Related(s, r, bytes) && Settled(r, bytes)
    ensures var r2 := (e.key + e.value * PAGE, r.1 + [e]);
            Related(s, r2, bytes) && Settled(r2, bytes)
  {
    EndAppended(r.1, e);
    PlaceStays(r.1, r.1 + [e], bytes);
  }

  lemma FromKeyStops<S>(keys: seq<Entry>, kids: seq<Tree>, step: (S, Entry) -> (S, bool), s: S)
    requires keys != [] && !step(s, keys[0]).1
    ensures FromKey(keys, kids, step, s) == step(s, keys[0]).0
  {
  }

  lemma FromKeyGoesOn<S>(keys: seq<Entry>, kids: seq<Tree>, step: (S, Entry) -> (S, bool), s: S)
    requires keys != [] && step(s, keys[0]).1
    ensures FromKey(keys, kids, step, s) == IterKids(keys[1..], RestKids(kids), step, step(s, keys[0]).0)
  {
  }

  lemma SettledKey(e: Entry, s: int, r: (int, seq<Entry>), bytes: nat)
    requires InArena(e) && bytes <= HIGH && Related(s, r, bytes) && Settled(r, bytes) && AllInArena(r.1)
    requires forall x :: x in r.1 ==> x.key <= e.key
    ensures WrittenStep(bytes)(s, e) == (s, false)
  {
    var j := PlaceIn(r.1, bytes);
    EndBounds(r.1, j);
    assert r.1[j] in r.1;
    MinusWraps(e.key, s, bytes);
  }

  lemma {:induction false} Simulated(keys: seq<Entry>, kids: seq<Tree>, s: int, r: (int, seq<Entry>), bytes: nat)
    requires RegularKids(keys, kids) && AllInArena(Weave(keys, kids)) && Sorted(Weave(keys, kids)) && bytes <= HIGH
    requires Related(s, r, bytes) && AllInArena(r.1) && Below(r.1, Weave(keys, kids))
    ensures Related(IterKids(keys, kids, WrittenStep(bytes), s), IterKids(keys, kids, RecordStep(), r), bytes)
    decreases kids, |keys|
  {
    hide Related, Settled, AllInArena;
    PartsInOrder(keys, kids, r.1);
    var s1, r1 := s, r;
    if kids != [] {
      var c := kids[0];
      Simulated(c.keys, c.kids, s, r, bytes);
      RecordAfter(keys, kids, s, r, bytes);
      s1, r1 := IterKids(c.keys, c.kids, WrittenStep(bytes), s), IterKids(c.keys, c.kids, RecordStep(), r);
    }
    FirstThenKey(keys, kids, WrittenStep(bytes), s);
    FirstThenKey(keys, kids, RecordStep(), r);
    if keys != [] {
      var e, tail := keys[0], RestKids(kids);
      if Settled(r1, bytes) {
        SettledFromKey(keys, kids, s1, r1, bytes);
      } else if e.key < r1.0 {
        KeyWraps(e, s1, r1, bytes);
      } else {
        KeyNoticed(e, s1, r1, bytes);
        var r2 := (e.key + e.value * PAGE, r1.1 + [e]);
        NoticedInOrder(keys, kids, r1.1);
        if e.key - r1.0 > bytes {
          SettledWalk(keys[1..], tail, s1, r2, bytes);
        } else {
          Simulated(keys[1..], tail, r2.0, r2, bytes);
        }
      }
    }
  }

  lemma {:induction false} PlaceByNoticed(t: Tree, h: nat, bytes: nat)
    requires Shape(t, h, 1) && Sorted(Inorder(t)) && AllInArena(Inorder(t)) && bytes <= HIGH
    ensures WrittenPlace(t, bytes) == EndOf(Noticed(t), PlaceIn(Noticed(t), bytes)) && AllInArena(Noticed(t))
  {
    ShapeIsRegular(t, h, 1);
    var r: (int, seq<Entry>) := (LOW, []);
    assert Related(LOW, r, bytes);
    Simulated(t.keys, t.kids, LOW, r, bytes);
    RecordIsFine(t.keys, t.kids, r);
  }

  // The place never lies before the arena.
  lemma {:induction false} NotBeforeArena(keys: seq<Entry>, kids: seq<Tree>, s: int, bytes: nat)
    requires RegularKids(keys, kids) && AllInArena(Weave(keys, kids)) && LOW <= s
    ensures LOW <= IterKids(keys, kids, WrittenStep(bytes), s)
    decreases kids, |keys|
  {
    WeaveParts(keys, kids);
    FirstThenKey(keys, kids, WrittenStep(bytes), s);
    var s1 := s;
    if kids != [] {
      s1 := IterKids(kids[0].keys, kids[0].kids, WrittenStep(bytes), s);
      assert Weave(kids[0].keys, kids[0].kids) == Inorder(kids[0]);
      NotBeforeArena(kids[0].keys, kids[0].kids, s, bytes);
    }
    if keys != [] {
      assert InArena(keys[0]);
      if WrittenStep(bytes)(s1, keys[0]).1 {
        hide Weave, Inorder, RegularKids, IterKids;
        NotBeforeArena(keys[1..], RestKids(kids), WrittenStep(bytes)(s1, keys[0]).0, bytes);
      }
    }
  }

  // ---------------------------------------------------------------- when the line does no harm

  // A request that does not end in a panic (lines 504-506).
  ghost predicate Served(t: Tree, bytes: nat) {
    bytes > 0 && bytes % PAGE == 0 && WrittenPlace(t, bytes) + bytes <= HIGH
  }

  // The smallest request that finds no gap wide enough before the j-th region noticed.
  ghost function NeedFor(a: seq<Entry>, j: nat): int
    requires j <= |a|
  {
    if j == 0 then PAGE
    else
      var gap := a[j - 1].key - EndOf(a, j - 1);
      if gap > NeedFor(a, j - 1) then gap else NeedFor(a, j - 1)
  }

  // The largest request that is placed there, and served.
  ghost function RoomAt(a: seq<Entry>, j: nat): int
    requires j <= |a|
  {
    var left := HIGH - EndOf(a, j);
    if j < |a| && a[j].key - EndOf(a, j) - PAGE < left then a[j].key - EndOf(a, j) - PAGE else left
  }

  // At every inflated end that some request is placed at, the largest one that is keeps clear of all regions.
  ghost predicate SafeAsWritten(a: seq<Entry>, c: seq<Entry>) {
    forall j :: 0 <= j <= |a| && NeedFor(a, j) <= RoomAt(a, j) ==>
      forall e :: e in c ==> Apart(e, EndOf(a, j), RoomAt(a, j))
  }

  lemma {:induction false} NeedIsLeast(a: seq<Entry>, j: nat, bytes: nat)
    requires j <= |a|
    ensures NeedFor(a, j) >= PAGE && forall i :: 0 <= i < j ==> a[i].key - EndOf(a, i) <= NeedFor(a, j)
    ensures bytes >= PAGE && (forall i :: 0 <= i < j ==> a[i].key - EndOf(a, i) <= bytes) ==> NeedFor(a, j) <= bytes
  {
    if j > 0 {
      NeedIsLeast(a, j - 1, bytes);
    }
  }

  lemma EndOnPage(a: seq<Entry>, j: nat)
    requires AllInArena(a) && j <= |a|
    ensures EndOf(a, j) % PAGE == 0 && (j < |a| ==> a[j].key % PAGE == 0)
  {
    if j > 0 {
      assert InArena(a[j - 1]);
    }
    if j < |a| {
      assert InArena(a[j]);
    }
  }

  lemma {:induction false} PlacedWithin(a: seq<Entry>, bytes: nat)
    requires AllInArena(a) && bytes > 0 && bytes % PAGE == 0
    ensures var j := PlaceIn(a, bytes);
            EndOf(a, j) + bytes <= HIGH ==> NeedFor(a, j) <= bytes <= RoomAt(a, j)
  {
    var j := PlaceIn(a, bytes);
    NeedIsLeast(a, j, bytes);
    EndOnPage(a, j);
  }

  lemma OnPage(x: int, y: int)
    requires x % PAGE == y % PAGE == 0
    ensures (x - y) % PAGE == 0
  {
  }

  lemma {:induction false} PlacedAt(a: seq<Entry>, j: nat)
    requires AllInArena(a) && j <= |a| && NeedFor(a, j) <= RoomAt(a, j)
    ensures var bytes := RoomAt(a, j);
            PAGE <= bytes <= HIGH && bytes % PAGE == 0 && PlaceIn(a, bytes) == j && EndOf(a, j) + bytes <= HIGH
  {
    EndBounds(a, j);
    NeedIsLeast(a, j, 0);
    EndOnPage(a, j);
    OnPage(HIGH, EndOf(a, j));
    if j < |a| {
      OnPage(a[j].key, EndOf(a, j));
      OnPage(a[j].key - EndOf(a, j), PAGE);
    }
    hide AllInArena, NeedFor, EndOf;
    PlaceUnique(a, RoomAt(a, j), j);
  }

  // For any tree of regions: no request that is served is given bytes of a region exactly if the inflated
  // regions, as far as the walk notices them, are safe.
  lemma {:induction false} SafeAsWrittenIff(t: Tree, h: nat)
    requires Shape(t, h, 1) && Regions(Inorder(t))
    ensures (forall bytes: nat, e :: Served(t, bytes) && e in Inorder(t) ==>
               Apart(e, WrittenPlace(t, bytes), bytes)) <==>
            SafeAsWritten(Noticed(t), Inorder(t))
  {
    var c, a := Inorder(t), Noticed(t);
    RegionsSorted(c);
    PlaceByNoticed(t, h, 0);
    if SafeAsWritten(a, c) {
      forall bytes: nat, e | Served(t, bytes) && e in c
        ensures Apart(e, WrittenPlace(t, bytes), bytes)
      {
        ServedFits(t, h, bytes);
        PlaceByNoticed(t, h, bytes);
        PlacedWithin(a, bytes);
        assert Apart(e, EndOf(a, PlaceIn(a, bytes)), RoomAt(a, PlaceIn(a, bytes)));
      }
    }
    if forall bytes: nat, e :: Served(t, bytes) && e in c ==> Apart(e, WrittenPlace(t, bytes), bytes) {
      forall j, e | 0 <= j <= |a| && NeedFor(a, j) <= RoomAt(a, j) && e in c
        ensures Apart(e, EndOf(a, j), RoomAt(a, j))
      {
        PlacedAt(a, j);
        var bytes: nat := RoomAt(a, j);
        PlaceByNoticed(t, h, bytes);
        assert Served(t, bytes);
      }
    }
  }

  lemma RegionsSorted(c: seq<Entry>)
    requires Regions(c)
    ensures Sorted(c) && AllInArena(c)
  {
  }

  lemma ServedFits(t: Tree, h: nat, bytes: nat)
    requires Shape(t, h, 1) && AllInArena(Inorder(t)) && Served(t, bytes)
    ensures bytes <= HIGH
  {
    ShapeIsRegular(t, h, 1);
    NotBeforeArena(t.keys, t.kids, LOW, bytes);
  }

  // Three regions in a root, of two, one and one pages: one page more is given a place that is taken.
  lemma OverlapAsWritten(n: Node)
    ensures var c := [Entry(LOW, 2 * PAGE), Entry(LOW + 0x100_0000, PAGE), Entry(LOW + 0x200_0000, PAGE)];
            var t := Tree(n, c, []);
            && Shape(t, 0, 1) && Regions(Inorder(t)) && Served(t, PAGE)
            && WrittenPlace(t, PAGE) == c[2].key && !Apart(c[2], WrittenPlace(t, PAGE), PAGE)
  {
    var c := [Entry(LOW, 2 * PAGE), Entry(LOW + 0x100_0000, PAGE), Entry(LOW + 0x200_0000, PAGE)];
    var t := Tree(n, c, []);
    LeafInorder(t);
    var step := WrittenStep(PAGE);
    assert c[1..] == [c[1], c[2]];
    assert step(LOW, c[0]) == (c[2].key, true);
    MinusWraps(c[1].key, c[2].key, PAGE);
    assert step(c[2].key, c[1]) == (c[2].key, false);
    assert IterKids(c[1..], [], step, c[2].key) == c[2].key;
    assert IterKids(c, [], step, LOW) == IterKids(c[1..], [], step, c[2].key);
  }
}
