/** Size classes and pages of the slab allocator: src/high/memory/heap.cpp:360-480.

    A page holds blocks of one size from its start on; at its end lie a bitmap of the blocks and one byte
    with the number of the size class.  The comment of line 354 gives 2048 as the largest size; the code
    has 2047, and so has this. */
module SlabPages {
  import opened Bitmaps
  import opened Common

  const BUCKETS: nat := 10

  // get_pref_size: 0 for a size that is too large.
  function PrefSize(size: nat): nat {
    if size <= 4 then 4
    else if size <= 8 then 8
    else if size <= 16 then 16
    else if size <= 32 then 32
    else if size <= 64 then 64
    else if size <= 128 then 128
    else if size <= 256 then 256
    else if size <= 512 then 512
    else if size <= 1024 then 1024
    else if size <= 2047 then 2047
    else 0
  }

  // get_pref_size_from_bucket
  function SizeOf(bucket: nat): (size: nat)
    requires bucket < BUCKETS
    ensures size > 0
  {
    if bucket == 0 then 4
    else if bucket == 1 then 8
    else if bucket == 2 then 16
    else if bucket == 3 then 32
    else if bucket == 4 then 64
    else if bucket == 5 then 128
    else if bucket == 6 then 256
    else if bucket == 7 then 512
    else if bucket == 8 then 1024
    else 2047
  }

  // get_bucket
  function BucketOf(prefSize: nat): (b: nat)
    requires exists size :: 0 < PrefSize(size) == prefSize
    ensures b < BUCKETS && SizeOf(b) == prefSize
  {
    if prefSize == 4 then 0
    else if prefSize == 8 then 1
    else if prefSize == 16 then 2
    else if prefSize == 32 then 3
    else if prefSize == 64 then 4
    else if prefSize == 128 then 5
    else if prefSize == 256 then 6
    else if prefSize == 512 then 7
    else if prefSize == 1024 then 8
    else 9
  }

  // get_bitmap_element_count
  function Blocks(bucket: nat): (n: nat)
    requires bucket < BUCKETS
  {
    if bucket == 0 then 992
    else if bucket == 1 then 504
    else if bucket == 2 then 253
    else if bucket == 3 then 127
    else if bucket == 4 then 63
    else if bucket == 5 then 31
    else if bucket == 6 then 15
    else if bucket == 7 then 7
    else if bucket == 8 then 3
    else 2
  }

  function BitmapSize(bucket: nat): nat
    requires bucket < BUCKETS
  {
    (Blocks(bucket) + 7) / 8
  }

  // The class of a size is the smallest one that holds it, and the sizes up to 2047 have one.
  lemma ClassFits(size: nat)
    ensures PrefSize(size) != 0 <==> size <= 2047
    ensures PrefSize(size) != 0 ==> size <= PrefSize(size)
    ensures forall b :: 0 <= b < BUCKETS && size <= SizeOf(b) ==> 0 < PrefSize(size) <= SizeOf(b)
    ensures forall b :: 0 <= b < BUCKETS ==> PrefSize(SizeOf(b)) == SizeOf(b) && BucketOf(SizeOf(b)) == b
  {
    forall b | 0 <= b < BUCKETS
      ensures PrefSize(SizeOf(b)) == SizeOf(b) && BucketOf(SizeOf(b)) == b
    {
      assert 0 < PrefSize(SizeOf(b)) == SizeOf(b);
    }
  }

  // The classes are 4, 2047, and the powers of two in between.
  lemma ClassSizes(bucket: nat)
    requires bucket < BUCKETS
    ensures SizeOf(bucket) == if bucket == 0 then 4 else if bucket == 9 then 2047 else 2 * SizeOf(bucket - 1)
  {
  }

  // The page is laid out from its end: the class number in the last byte, the bitmap right before it.
  lemma Layout(bucket: nat)
    requires bucket < BUCKETS
    ensures NewPage(bucket)[4095] as nat == bucket && BitmapAt(bucket) + (Blocks(bucket) + 7) / 8 == 4095
    ensures forall k :: 0 <= k < 4095 ==> NewPage(bucket)[k] == 0
  {
    EncodeIs(bucket);
    hide Encode;
  }

  lemma EncodeIs(bucket: nat)
    requires bucket < BUCKETS
    ensures Encode(bucket) as nat == bucket
  {
    assert (0 as bv8) as nat == 0 && (1 as bv8) as nat == 1 && (2 as bv8) as nat == 2 && (3 as bv8) as nat == 3;
    assert (4 as bv8) as nat == 4 && (5 as bv8) as nat == 5 && (6 as bv8) as nat == 6 && (7 as bv8) as nat == 7;
    assert (8 as bv8) as nat == 8 && (9 as bv8) as nat == 9;
  }

  // Blocks, bitmap and class byte fit a page, and one more block would not.
  lemma PageIsFull(bucket: nat)
    requires bucket < BUCKETS
    ensures Blocks(bucket) * SizeOf(bucket) + BitmapSize(bucket) + 1 <= PAGE
    ensures (Blocks(bucket) + 1) * SizeOf(bucket) + (Blocks(bucket) + 1 + 7) / 8 + 1 > PAGE
  {
  }

  // ---------------------------------------------------------------- pages

  type Page = seq<bv8>

  // The class number as a byte, and back.
  function Encode(bucket: nat): bv8
    requires bucket < BUCKETS
  {
    if bucket == 0 then 0
    else if bucket == 1 then 1
    else if bucket == 2 then 2
    else if bucket == 3 then 3
    else if bucket == 4 then 4
    else if bucket == 5 then 5
    else if bucket == 6 then 6
    else if bucket == 7 then 7
    else if bucket == 8 then 8
    else 9
  }

  function Decode(b: bv8): nat {
    if b == 0 then 0
    else if b == 1 then 1
    else if b == 2 then 2
    else if b == 3 then 3
    else if b == 4 then 4
    else if b == 5 then 5
    else if b == 6 then 6
    else if b == 7 then 7
    else if b == 8 then 8
    else if b == 9 then 9
    else 10
  }

  predicate IsSlab(page: Page) {
    |page| == PAGE && Decode(page[PAGE - 1]) < BUCKETS
  }

  function Bucket(page: Page): (b: nat)
    requires IsSlab(page)
    ensures b < BUCKETS
  {
    Decode(page[PAGE - 1])
  }

  // The offset of the bitmap in the page.
  function BitmapAt(bucket: nat): (at: nat)
    requires bucket < BUCKETS
    ensures at + BitmapSize(bucket) == PAGE - 1
    ensures Blocks(bucket) * SizeOf(bucket) <= at
  {
    PAGE - 1 - BitmapSize(bucket)
  }

  // Which blocks are taken.
  ghost function Bits(page: Page): (bits: seq<bool>)
    requires IsSlab(page)
    ensures |bits| == Blocks(Bucket(page))
  {
    var b := Bucket(page);
    BitsOf(page[BitmapAt(b)..PAGE - 1], Blocks(b))
  }

  // A page of zeros but for its class byte (lines 418-420).
  function NewPage(bucket: nat): (page: Page)
    requires bucket < BUCKETS
    ensures IsSlab(page) && Bucket(page) == bucket
  {
    seq(PAGE, _ => 0 as bv8)[PAGE - 1 := Encode(bucket)]
  }

  lemma NewPageIsFree(bucket: nat)
    requires bucket < BUCKETS
    ensures forall i :: 0 <= i < Blocks(bucket) ==> !Bits(NewPage(bucket))[i]
  {
    var page := NewPage(bucket);
    AllClear(page[BitmapAt(bucket)..PAGE - 1], Blocks(bucket));
  }

  // A page with another bitmap.
  function WithBitmap(page: Page, bitmap: seq<bv8>): (page': Page)
    requires IsSlab(page) && |bitmap| == BitmapSize(Bucket(page))
    ensures IsSlab(page') && Bucket(page') == Bucket(page)
    ensures page'[..BitmapAt(Bucket(page))] == page[..BitmapAt(Bucket(page))]
  {
    page[..BitmapAt(Bucket(page))] + bitmap + page[PAGE - 1..]
  }

  lemma BitsWithBitmap(page: Page, bitmap: seq<bv8>)
    requires IsSlab(page) && |bitmap| == BitmapSize(Bucket(page))
    ensures Bits(WithBitmap(page, bitmap)) == BitsOf(bitmap, Blocks(Bucket(page)))
  {
    var b := Bucket(page);
    assert WithBitmap(page, bitmap)[BitmapAt(b)..PAGE - 1] == bitmap;
  }

  // What a block's owner writes into it changes neither bitmap nor class.
  lemma OwnersWriteIsHarmless(page: Page, i: nat, k: nat, v: bv8)
    requires IsSlab(page) && i < Blocks(Bucket(page))
    requires i * SizeOf(Bucket(page)) <= k < i * SizeOf(Bucket(page)) + SizeOf(Bucket(page))
    ensures k < BitmapAt(Bucket(page))
    ensures IsSlab(page[k := v]) && Bucket(page[k := v]) == Bucket(page) && Bits(page[k := v]) == Bits(page)
  {
    var b := Bucket(page);
    BlockEnds(b, i);
    assert page[k := v][BitmapAt(b)..PAGE - 1] == page[BitmapAt(b)..PAGE - 1];
  }

  lemma BlockEnds(bucket: nat, i: nat)
    requires bucket < BUCKETS && i < Blocks(bucket)
    ensures i * SizeOf(bucket) + SizeOf(bucket) <= BitmapAt(bucket)
  {
    var s, n := SizeOf(bucket), Blocks(bucket);
    assert (i + 1) * s <= n * s by {
      assert n * s - (i + 1) * s == (n - i - 1) * s;
      assert (n - i - 1) * s >= 0;
    }
  }

  // ---------------------------------------------------------------- taking and releasing a block

  ghost predicate HasRoom(bits: seq<bool>) {
    exists i :: 0 <= i < |bits| && !bits[i]
  }

  function Clear(bits: seq<bool>): nat {
    if bits == [] then 0 else Clear(bits[..|bits| - 1]) + if bits[|bits| - 1] then 0 else 1
  }

  lemma {:induction false} ClearLess(bits: seq<bool>, i: nat)
    requires i < |bits| && !bits[i]
    ensures Clear(bits) == Clear(bits[i := true]) + 1
  {
    var n := |bits| - 1;
    if i == n {
      assert bits[i := true][..n] == bits[..n];
    } else {
      ClearLess(bits[..n], i);
      assert bits[i := true][..n] == bits[..n][i := true];
    }
  }

  // One clear bit and no more: once it is set there is no room left.
  lemma {:induction false} LastRoom(bits: seq<bool>, i: nat)
    requires i < |bits| && !bits[i]
    ensures Clear(bits) == 1 <==> !HasRoom(bits[i := true])
  {
    ClearLess(bits, i);
    NoneClear(bits[i := true]);
  }

  lemma {:induction false} NoneClear(bits: seq<bool>)
    ensures Clear(bits) == 0 <==> !HasRoom(bits)
  {
    if bits != [] {
      var n := |bits| - 1;
      NoneClear(bits[..n]);
      if HasRoom(bits[..n]) {
        var j :| 0 <= j < n && !bits[..n][j];
        assert !bits[j];
      }
    }
  }

  lemma ClearNone(bits: seq<bool>)
    ensures Clear(bits[..0]) == 0
  {
  }

  lemma ClearNext(bits: seq<bool>, i: nat)
    requires i < |bits|
    ensures Clear(bits[..i + 1]) == Clear(bits[..i]) + if bits[i] then 0 else 1
  {
    assert bits[..i + 1][..i] == bits[..i];
  }

  lemma RoomIs(bits: seq<bool>)
    ensures HasRoom(bits) <==> !forall i :: 0 <= i < |bits| ==> bits[i]
  {
  }

  // The bytes that hold the bitmap.
  lemma BitmapOf(page: Page)
    requires IsSlab(page)
    ensures var b := Bucket(page);
            var n := Blocks(b);
            && |page| == PAGE && BitmapAt(b) <= PAGE - 1
            && var bitmap := page[BitmapAt(b)..PAGE - 1];
               |bitmap| == BitmapSize(b) && n <= 8 * |bitmap| && BitsOf(bitmap, n) == Bits(page)
  {
  }

  // Lines 425-441: the first free block is taken; `count` blocks were free.
  method TakeBlock(page: Page) returns (page': Page, result: nat, count: nat)
    requires IsSlab(page) && HasRoom(Bits(page))
    ensures result < Blocks(Bucket(page)) && !Bits(page)[result]
    ensures forall j :: 0 <= j < result ==> Bits(page)[j]
    ensures IsSlab(page') && Bucket(page') == Bucket(page) && Bits(page') == Bits(page)[result := true]
    ensures page'[..BitmapAt(Bucket(page))] == page[..BitmapAt(Bucket(page))]
    ensures count == Clear(Bits(page))
  {
    hide *;
    var b := Bucket(page);
    var n := Blocks(b);
    BitmapOf(page);
    var bitmap := page[BitmapAt(b)..PAGE - 1];
    ghost var bits := Bits(page);
    ClearNone(bits);
    var found := false;
    result, count := 0, 0;
    var i := 0;
    while i < n
      invariant i <= n <= 8 * |bitmap| && |bitmap| == BitmapSize(b)
      invariant found ==> result < i && !bits[result] && forall j :: 0 <= j < result ==> bits[j]
      invariant !found ==> forall j :: 0 <= j < i ==> bits[j]
      invariant BitsOf(bitmap, n) == if found then bits[result := true] else bits
      invariant count == Clear(bits[..i])
    {
      ClearNext(bits, i);
      BitAt(bitmap, n, i);
      if !Bit(bitmap[i / 8], i % 8) {
        if !found {
          result, found := i, true;
          SetByte(bitmap, n, i, bitmap[i / 8] | Mask(i % 8), true);
          bitmap := bitmap[i / 8 := bitmap[i / 8] | Mask(i % 8)];
        }
        count := count + 1;
      }
      i := i + 1;
    }
    assert bits[..n] == bits;
    RoomIs(bits);
    page' := WithBitmap(page, bitmap);
    BitsWithBitmap(page, bitmap);
  }

  // Lines 453-467: whether all blocks are taken, or none, is seen before the block is released.
  method ReleaseBlock(page: Page, index: nat) returns (page': Page, full: bool, empty: bool)
    requires IsSlab(page) && index < Blocks(Bucket(page))
    ensures full <==> !HasRoom(Bits(page))
    ensures empty <==> forall j :: 0 <= j < |Bits(page)| ==> !Bits(page)[j]
    ensures IsSlab(page') && Bucket(page') == Bucket(page) && Bits(page') == Bits(page)[index := false]
    ensures page'[..BitmapAt(Bucket(page))] == page[..BitmapAt(Bucket(page))]
  {
    hide *;
    var b := Bucket(page);
    var n := Blocks(b);
    BitmapOf(page);
    var bitmap := page[BitmapAt(b)..PAGE - 1];
    ghost var bits := Bits(page);
    full, empty := true, true;
    var i := 0;
    while i < n
      invariant i <= n <= 8 * |bitmap|
      invariant full <==> forall j :: 0 <= j < i ==> bits[j]
      invariant empty <==> forall j :: 0 <= j < i ==> !bits[j]
    {
      BitAt(bitmap, n, i);
      if !Bit(bitmap[i / 8], i % 8) {
        full := false;
      }
      if Bit(bitmap[i / 8], i % 8) {
        empty := false;
      }
      i := i + 1;
    }
    RoomIs(bits);
    SetByte(bitmap, n, index, bitmap[index / 8] & !Mask(index % 8), false);
    bitmap := bitmap[index / 8 := bitmap[index / 8] & !Mask(index % 8)];
    page' := WithBitmap(page, bitmap);
    BitsWithBitmap(page, bitmap);
  }
}
