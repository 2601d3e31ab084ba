/** The loops that the B-tree runs over the slots of a node's two buffers, each written once. */
module Slots {

  // Slots lo..hi-1 move one up, last first; slot lo keeps its old value.
  method ShiftUp<T>(a: seq<T>, lo: nat, hi: nat) returns (b: seq<T>)
    requires lo <= hi < |a|
    ensures b == a[..lo + 1] + a[lo..hi] + a[hi + 1..]
  {
    b := a;
    var j := hi;
    while j > lo
      invariant lo <= j <= hi
      invariant b == a[..j + 1] + a[j..hi] + a[hi + 1..]
    {
      b := b[j := b[j - 1]];
      j := j - 1;
    }
  }

  // Slots lo+1..hi move one down, first first; slot hi keeps its old value.
  method ShiftDown<T>(a: seq<T>, lo: nat, hi: nat) returns (b: seq<T>)
    requires lo <= hi < |a|
    ensures b == a[..lo] + a[lo + 1..hi + 1] + a[hi..]
  {
    b := a;
    var j := lo;
    while j < hi
      invariant lo <= j <= hi
      invariant b == a[..lo] + a[lo + 1..j + 1] + a[j..]
    {
      b := b[j := b[j + 1]];
      j := j + 1;
    }
  }

  // n slots of src, from slot `from` on, move to dst, and are blanked where they were.
  method MoveOut<T>(src: seq<T>, from: nat, n: nat, dst: seq<T>, at: nat, blank: T) returns (src': seq<T>, dst': seq<T>)
    requires from + n <= |src| && at + n <= |dst|
    ensures |src'| == |src| && src'[..from] == src[..from] && src'[from + n..] == src[from + n..]
    ensures forall i :: from <= i < from + n ==> src'[i] == blank
    ensures dst' == dst[..at] + src[from..from + n] + dst[at + n..]
  {
    src', dst' := src, dst;
    var j := 0;
    while j < n
      invariant j <= n && |src'| == |src|
      invariant src'[..from] == src[..from] && src'[from + j..] == src[from + j..]
      invariant forall i :: from <= i < from + j ==> src'[i] == blank
      invariant dst' == dst[..at] + src[from..from + j] + dst[at + j..]
    {
      dst' := dst'[at + j := src'[from + j]];
      src' := src'[from + j := blank];
      j := j + 1;
    }
  }

  // What shifting up and writing the slot that has come free comes to.
  lemma PutIn<T>(a: seq<T>, lo: nat, hi: nat, x: T)
    requires lo <= hi < |a|
    ensures var r := (a[..lo + 1] + a[lo..hi] + a[hi + 1..])[lo := x];
            |r| == |a| && r[..hi + 1] == a[..lo] + [x] + a[lo..hi]
  {
  }

  // ... if the first slots hold some keys ...
  lemma PutAmong<T>(a: seq<T>, keys: seq<T>, i: nat, x: T)
    requires i <= |keys| < |a| && a[..|keys|] == keys
    ensures var n := |keys|;
            var r := (a[..i + 1] + a[i..n] + a[n + 1..])[i := x];
            |r| == |a| && r[..n + 1] == keys[..i] + [x] + keys[i..]
  {
    PutIn(a, i, |keys|, x);
    assert keys[..i] == a[..i] && keys[i..] == a[i..|keys|];
  }

  // ... and slot by slot.
  lemma PutBehind<T>(a: seq<T>, i: nat, hi: nat, x: T)
    requires i + 1 <= hi < |a|
    ensures var r := (a[..i + 2] + a[i + 1..hi] + a[hi + 1..])[i + 1 := x];
            && |r| == |a|
            && forall j :: 0 <= j <= hi ==> r[j] == if j <= i then a[j] else if j == i + 1 then x else a[j - 1]
  {
    PutIn(a, i + 1, hi, x);
    var r := (a[..i + 2] + a[i + 1..hi] + a[hi + 1..])[i + 1 := x];
    var s := a[..i + 1] + [x] + a[i + 1..hi];
    forall j | 0 <= j <= hi
      ensures r[j] == if j <= i then a[j] else if j == i + 1 then x else a[j - 1]
    {
      assert r[j] == r[..hi + 1][j] == s[j];
    }
  }

  // All that src has from slot `from` on moves to the start of dst.
  method MoveUpper<T>(src: seq<T>, from: nat, dst: seq<T>, blank: T) returns (src': seq<T>, dst': seq<T>)
    requires from <= |src| <= from + |dst|
    ensures |src'| == |src| && src'[..from] == src[..from]
    ensures |dst'| == |dst| && dst'[..|src| - from] == src[from..] && dst'[|src| - from..] == dst[|src| - from..]
  {
    src', dst' := MoveOut(src, from, |src| - from, dst, 0, blank);
    assert src[from..from + (|src| - from)] == src[from..];
  }

  // The slots before `from` stay as they are, but for the last of them, which is taken out.
  lemma LastTaken<T>(src: seq<T>, src': seq<T>, from: nat, blank: T)
    requires 0 < from <= |src| == |src'| && src'[..from] == src[..from]
    ensures src'[from - 1] == src[from - 1] && src'[from - 1 := blank][..from - 1] == src[..from - 1]
  {
    assert src'[from - 1] == src'[..from][from - 1];
    assert src'[..from - 1] == src'[..from][..from - 1] && src[..from - 1] == src[..from][..from - 1];
  }

  // n slots of src, from slot `from` on, are copied into dst.
  method CopyInto<T>(src: seq<T>, from: nat, n: nat, dst: seq<T>, at: nat) returns (dst': seq<T>)
    requires from + n <= |src| && at + n <= |dst|
    ensures dst' == dst[..at] + src[from..from + n] + dst[at + n..]
  {
    dst' := dst;
    var j := 0;
    while j < n
      invariant j <= n
      invariant dst' == dst[..at] + src[from..from + j] + dst[at + j..]
    {
      dst' := dst'[at + j := src[from + j]];
      j := j + 1;
    }
  }

  // ---------------------------------------------------------------- two buffers into one

  // n slots of b come behind the first n slots of a and a new one.
  method JoinWith<T>(a: seq<T>, x: T, b: seq<T>, n: nat) returns (r: seq<T>)
    requires |a| == 2 * n + 1 && n <= |b|
    ensures r == a[..n] + [x] + b[..n]
  {
    r := CopyInto(b, 0, n, a[n := x], n + 1);
  }

  // n slots of b, the last of them put there by itself, come behind the first n of a.
  method JoinTo<T>(a: seq<T>, b: seq<T>, n: nat) returns (r: seq<T>)
    requires n > 0 && |a| == 2 * n && n <= |b|
    ensures r == a[..n] + b[..n]
  {
    r := CopyInto(b, 0, n - 1, a, n);
    r := r[2 * n - 1 := b[n - 1]];
  }

  // Slots move down over slot lo, and the last of them is cleared.
  method ShiftOver<T>(a: seq<T>, lo: nat, hi: nat, x: T) returns (r: seq<T>)
    requires lo <= hi < |a|
    ensures |r| == |a| && r[..hi] == a[..lo] + a[lo + 1..hi + 1]
  {
    r := ShiftDown(a, lo, hi);
    r := r[hi := x];
  }
}
