/** Byte-buffer helpers shared by both engines: Go's built-in `copy` on byte slices
    and all-zero blocks. (Go's `make([]byte, n)` yields n zero bytes.) */
module Bytes {

  function Min(a: int, b: int): (r: int)
    ensures r <= a && r <= b && (r == a || r == b)
  {
    if a <= b then a else b
  }

  /** n zero bytes */
  function Zeros(n: nat): (r: seq<bv8>)
    ensures |r| == n
    ensures forall i :: 0 <= i < n ==> r[i] == 0
  {
    seq(n, _ => 0)
  }

  /** The number of elements Go's `copy(dst[lo:hi], src)` transfers. */
  function CopyCount(lo: nat, hi: nat, src: seq<bv8>): nat
    requires lo <= hi
  {
    Min(hi - lo, |src|)
  }

  /** The contents of `dst` after Go's `copy(dst[lo:hi], src)`: the first
      min(hi - lo, |src|) elements of `src` land at `lo`, everything else is kept. */
  function Copy(dst: seq<bv8>, lo: nat, hi: nat, src: seq<bv8>): (r: seq<bv8>)
    requires lo <= hi <= |dst|
    ensures |r| == |dst|
    ensures forall i :: 0 <= i < |r| ==>
      r[i] == if lo <= i < lo + CopyCount(lo, hi, src) then src[i - lo] else dst[i]
  {
    var n := CopyCount(lo, hi, src);
    dst[..lo] + src[..n] + dst[lo + n..]
  }

  /** Two adjacent copies are one copy of the concatenation. */
  lemma CopyTwice(dst: seq<bv8>, lo: nat, hi: nat, a: seq<bv8>, b: seq<bv8>)
    requires lo + |a| <= hi <= |dst|
    ensures Copy(Copy(dst, lo, hi, a), lo + |a|, hi, b) == Copy(dst, lo, hi, a + b)
  {
    var l := Copy(Copy(dst, lo, hi, a), lo + |a|, hi, b);
    var r := Copy(dst, lo, hi, a + b);
    forall i | 0 <= i < |dst| ensures l[i] == r[i] {
      if lo <= i < lo + |a| {
        assert (a + b)[i - lo] == a[i - lo];
      } else if lo + |a| <= i < lo + CopyCount(lo, hi, a + b) {
        assert (a + b)[i - lo] == b[i - lo - |a|];
      }
    }
  }

  /** Go's `copy(dst[lo:hi], src)` performed in place. `src` is a value taken before
      the copy starts, so overlapping copies behave like Go's (memmove). */
  method CopyInto(dst: array<bv8>, lo: nat, hi: nat, src: seq<bv8>)
    requires lo <= hi <= dst.Length
    modifies dst
    ensures dst[..] == Copy(old(dst[..]), lo, hi, src)
  {
    var n := Min(hi - lo, |src|);
    for i := 0 to n
      invariant forall k :: 0 <= k < dst.Length ==>
        dst[k] == if lo <= k < lo + i then src[k - lo] else old(dst[k])
    {
      dst[lo + i] := src[i];
    }
  }
}
