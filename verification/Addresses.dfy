/** Virtual addresses of the lower half, and the table indices in them: include/memory/mem.h, union
    VirtualAddress; getOffset at src/high/memory/mem.cpp:239-252. */
module Addresses {
  import opened Common
  import opened PageTables
  import opened Paging
  import Rests

  const TIB: nat := 0x100_0000_0000

  // The pages below 128 TiB.
  const PAGES: nat := 0x8_0000_0000

  // The four indices of a page number, top level first.
  function PathOf(n: nat): (page: seq<nat>)
    ensures |page| == 4
  {
    [n / 0x800_0000, n / 0x4_0000 % 512, n / 512 % 512, n % 512]
  }

  lemma PathIsPage(n: nat)
    requires n < PAGES
    ensures IsPage(PathOf(n)) && PageNumber(PathOf(n)) == n
  {
    Indices(n);
    var p := PathOf(n);
    assert Rest(p, 4) == 0;
    assert Rest(p, 3) == p[3];
    assert Rest(p, 2) == p[2] * 512 + Rest(p, 3);
    assert Rest(p, 1) == p[1] * 0x4_0000 + Rest(p, 2);
    assert Rest(p, 0) == p[0] * 0x800_0000 + Rest(p, 1);
  }

  lemma Indices(n: nat)
    requires n < PAGES
    ensures n == n / 0x800_0000 * 0x800_0000 + n / 0x4_0000 % 512 * 0x4_0000 + n / 512 % 512 * 512 + n % 512
    ensures n / 0x800_0000 < 256
  {
    assert n / 0x4_0000 == n / 0x800_0000 * 512 + n / 0x4_0000 % 512;
    assert n / 512 == n / 0x4_0000 * 512 + n / 512 % 512;
  }

  lemma NumberIsPath(page: seq<nat>)
    requires IsPage(page)
    ensures PathOf(PageNumber(page)) == page
  {
    assert Rest(page, 4) == 0;
    assert Rest(page, 3) == page[3];
    assert Rest(page, 2) == page[2] * 512 + page[3];
    assert Rest(page, 1) == page[1] * 0x4_0000 + Rest(page, 2);
    assert Rest(page, 0) == page[0] * 0x800_0000 + Rest(page, 1);
    assert page[0] < 512 && page[1] < 512 && page[2] < 512 && page[3] < 512;
    hide Rest, IsPath;
    FourDigits(page[0], page[1], page[2], page[3]);
  }

  lemma FourDigits(a: nat, b: nat, c: nat, d: nat)
    requires b < 512 && c < 512 && d < 512
    ensures var n := a * 0x800_0000 + b * 0x4_0000 + c * 512 + d;
            n / 0x800_0000 == a && n / 0x4_0000 % 512 == b && n / 512 % 512 == c && n % 512 == d
  {
    var n := a * 0x800_0000 + b * 0x4_0000 + c * 512 + d;
    Digit(a, b * 0x4_0000 + c * 512 + d, 0x800_0000, n);
    Digit(a * 512 + b, c * 512 + d, 0x4_0000, n);
    Digit((a * 512 + b) * 512 + c, d, 512, n);
    Digit(a, b, 512, a * 512 + b);
    Digit(a * 512 + b, c, 512, (a * 512 + b) * 512 + c);
  }

  lemma Digit(q: nat, r: nat, n: nat, a: nat)
    requires r < n && a == q * n + r
    ensures a / n == q && a % n == r
  {
    Rests.SplitAs(q, r, n, a);
  }

  lemma PathsDiffer(n: nat, m: nat)
    requires n < PAGES && m < PAGES && PathOf(n) == PathOf(m)
    ensures n == m
  {
    PathIsPage(n);
    PathIsPage(m);
  }

  // The root index of a page says in which 512 GiB it lies.
  lemma NumberInArena(page: seq<nat>)
    requires IsPage(page)
    ensures page[0] * 0x800_0000 <= PageNumber(page) < page[0] * 0x800_0000 + 0x800_0000
  {
    assert Rest(page, 4) == 0;
    assert Rest(page, 3) == page[3];
    assert Rest(page, 2) == page[2] * 512 + Rest(page, 3);
    assert Rest(page, 1) == page[1] * 0x4_0000 + Rest(page, 2);
    assert Rest(page, 0) == page[0] * 0x800_0000 + Rest(page, 1);
  }
}
