/** Where the memory bitmap may lie: findSubregionWithSize, src/high/memory/mem.cpp:19-55, over the
    intervals of include/util/interval.h:8-23. */
module Subregion {
  import opened Common
  import opened MemoryMap

  datatype Interval = Interval(left: nat, right: nat) {
    predicate Valid() {
      left < right
    }

    // Touching counts.
    predicate Intersects(other: Interval) {
      !(other.right < left || right < other.left)
    }
  }

  // The first reserved interval that the region meets.
  function FirstMet(region: Interval, reserved: seq<Interval>): (r: Option<Interval>)
    ensures r.Some? ==> r.value in reserved && region.Intersects(r.value)
    ensures r.None? ==> forall x :: x in reserved ==> !region.Intersects(x)
  {
    if reserved == [] then None
    else if region.Intersects(reserved[0]) then Some(reserved[0])
    else FirstMet(region, reserved[1..])
  }

  // How many reserved intervals the region meets.
  ghost function Met(region: Interval, reserved: seq<Interval>): nat {
    if reserved == [] then 0
    else (if region.Intersects(reserved[0]) then 1 else 0) + Met(region, reserved[1..])
  }

  // A part of a region that leaves out an interval the region meets, meets fewer.
  lemma {:induction false} MeetsFewer(region: Interval, part: Interval, reserved: seq<Interval>)
    requires region.left <= part.left && part.right <= region.right
    ensures Met(part, reserved) <= Met(region, reserved)
    ensures (exists x :: x in reserved && region.Intersects(x) && !part.Intersects(x)) ==>
              Met(part, reserved) < Met(region, reserved)
  {
    if reserved != [] {
      MeetsFewer(region, part, reserved[1..]);
      assert reserved == [reserved[0]] + reserved[1..];
    }
  }

  // No interval begins so low that the subtraction of line 40 wraps around.
  ghost predicate NotLow(reserved: seq<Interval>) {
    forall x :: x in reserved ==> x.left >= 2
  }

  function Find(region: Interval, reserved: seq<Interval>, size: nat): (r: Option<Interval>)
    requires NotLow(reserved)
    ensures r.Some? ==>
              && region.left <= r.value.left && r.value.right <= region.right
              && r.value.right - r.value.left == size
              && forall x :: x in reserved ==> !r.value.Intersects(x)
    decreases Met(region, reserved)
  {
    if region.right - region.left < size then None
    else
      var met := FirstMet(region, reserved);
      if met.None? then Some(Interval(region.left, region.left + size))
      else
        var before := Interval(region.left, met.value.left - 2);
        var after := Interval(met.value.right + 2, region.right);
        MeetsFewer(region, before, reserved);
        MeetsFewer(region, after, reserved);
        var res := if before.Valid() then Find(before, reserved, size) else None;
        if res.Some? then res
        else if after.Valid() then Find(after, reserved, size)
        else None
  }

  lemma FindStep(region: Interval, reserved: seq<Interval>, size: nat)
    requires NotLow(reserved) && region.right - region.left >= size
    ensures FirstMet(region, reserved).None? ==>
              Find(region, reserved, size) == Some(Interval(region.left, region.left + size))
    ensures FirstMet(region, reserved).Some? ==>
              var met := FirstMet(region, reserved).value;
              met.left >= 2 &&
              var before, after := Interval(region.left, met.left - 2), Interval(met.right + 2, region.right);
              Find(region, reserved, size) ==
                if before.Valid() && Find(before, reserved, size).Some? then Find(before, reserved, size)
                else if after.Valid() then Find(after, reserved, size)
                else None
  {
  }

  // A place that keeps clear of the reserved intervals by the two bytes that the search leaves.
  ghost predicate Clear(region: Interval, reserved: seq<Interval>, x: nat, size: nat) {
    && region.left <= x && x + size <= region.right
    && forall r :: r in reserved ==> x + size <= r.left - 2 || r.right + 2 <= x
  }

  // Such a place lies in the part before a reserved interval, or in the part behind it.
  lemma ClearOfOne(region: Interval, reserved: seq<Interval>, x: nat, size: nat, met: Interval)
    requires NotLow(reserved) && size > 0 && Clear(region, reserved, x, size) && met in reserved
    ensures region.right - region.left >= size && met.left >= 2
    ensures var before, after := Interval(region.left, met.left - 2), Interval(met.right + 2, region.right);
            || (before.Valid() && Clear(before, reserved, x, size))
            || (after.Valid() && Clear(after, reserved, x, size) && met.left - 2 < x + size)
  {
  }

  lemma FindHere(region: Interval, reserved: seq<Interval>, x: nat, size: nat)
    requires NotLow(reserved) && Clear(region, reserved, x, size) && FirstMet(region, reserved).None?
    ensures Find(region, reserved, size).Some? && Find(region, reserved, size).value.left <= x
  {
    FindStep(region, reserved, size);
  }

  // What the two parts have to offer, put together.
  lemma FindInParts(region: Interval, reserved: seq<Interval>, x: nat, size: nat, met: Interval)
    requires NotLow(reserved) && FirstMet(region, reserved) == Some(met) && met.left >= 2
    requires region.right - region.left >= size
    requires var before, after := Interval(region.left, met.left - 2), Interval(met.right + 2, region.right);
             || (before.Valid() && Find(before, reserved, size).Some? && Find(before, reserved, size).value.left <= x)
             || (after.Valid() && met.left - 2 < x + size
                 && Find(after, reserved, size).Some? && Find(after, reserved, size).value.left <= x)
    ensures Find(region, reserved, size).Some? && Find(region, reserved, size).value.left <= x
  {
    var found := Find(region, reserved, size);
    var before, after := Interval(region.left, met.left - 2), Interval(met.right + 2, region.right);
    FindStep(region, reserved, size);
    var low := Find(before, reserved, size);
    var high := Find(after, reserved, size);
    hide *;
    assert found == if before.left < before.right && low.Some? then low
                    else if after.left < after.right then high else None;
  }

  // The search fails only if there is no such place, and finds none above such a place.
  lemma {:induction false} FindsAPlace(region: Interval, reserved: seq<Interval>, size: nat, x: nat)
    requires NotLow(reserved) && size > 0 && Clear(region, reserved, x, size)
    ensures Find(region, reserved, size).Some? && Find(region, reserved, size).value.left <= x
    decreases Met(region, reserved)
  {
    if FirstMet(region, reserved).None? {
      FindHere(region, reserved, x, size);
    } else {
      var met := FirstMet(region, reserved).value;
      var before := Interval(region.left, met.left - 2);
      var after := Interval(met.right + 2, region.right);
      MeetsFewer(region, before, reserved);
      MeetsFewer(region, after, reserved);
      ClearOfOne(region, reserved, x, size, met);
      if before.Valid() && Clear(before, reserved, x, size) {
        FindsAPlace(before, reserved, size, x);
      } else {
        FindsAPlace(after, reserved, size, x);
      }
      hide *;
      FindInParts(region, reserved, x, size, met);
    }
  }

  const WORD: nat := 0x1_0000_0000_0000_0000

  // The part before an interval leaves that interval out, so that the search gets on, exactly if the
  // subtraction does not wrap around.
  lemma PartBeforeIff(region: Interval, r: Interval)
    requires region.Intersects(r) && region.right < WORD && r.left <= r.right < WORD
    ensures var before := Interval(region.left, (r.left - 2) % WORD);
            before.Intersects(r) <==> r.left < 2
  {
    if r.left < 2 {
      assert (r.left - 2) % WORD == r.left - 2 + WORD;
    } else {
      assert (r.left - 2) % WORD == r.left - 2;
    }
  }
}
