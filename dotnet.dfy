/**
 * The parts of the .NET runtime that the gradient flattener relies on:
 * 32-bit signed integers, the row-major storage of a rectangular 2-D array,
 * and Buffer.BlockCopy, which copies a contiguous block of bytes between
 * primitive arrays.  Only the element-level effect of a block copy is
 * modelled: every offset and count is a whole number of 8-byte elements.
 */
module DotNet {

  /**
   * The C# `int`.  C# arithmetic on it silently wraps around; the verifier
   * instead obliges every result to stay in range, so wherever a model uses
   * it, the source's arithmetic is shown never to wrap.
   */
  newtype int32 = x: int | -0x8000_0000 <= x < 0x8000_0000

  const INT_MAX: int := 0x7FFF_FFFF

  /**
   * Unchecked C# `int` arithmetic: the low 32 bits of the exact result,
   * read as a signed number.  It differs from the exact result by a
   * multiple of 2^32 and equals it whenever the exact result fits.
   */
  function Wrap(x: int): (r: int32)
    ensures (x - r as int) % 0x1_0000_0000 == 0
    ensures -0x8000_0000 <= x <= INT_MAX ==> r as int == x
  {
    ((x + 0x8000_0000) % 0x1_0000_0000 - 0x8000_0000) as int32
  }

  /** `sizeof(double)` in bytes. */
  const SIZE_OF_DOUBLE: int32 := 8

  /** `m.Length` of a C# `T[,]`: the number of elements of the matrix. */
  function ElementCount<T>(m: array2<T>): nat
  {
    m.Length0 * m.Length1
  }

  /** Row `i` of a matrix, left to right. */
  function Row<T>(m: array2<T>, i: nat): (r: seq<T>)
    requires i < m.Length0
    reads m
    ensures |r| == m.Length1
    ensures forall j :: 0 <= j < m.Length1 ==> r[j] == m[i, j]
  {
    seq(m.Length1, j requires 0 <= j < m.Length1 reads m => m[i, j])
  }

  /** The first `n` rows of a matrix, one after the other. */
  function Rows<T>(m: array2<T>, n: nat): (s: seq<T>)
    requires n <= m.Length0
    reads m
    ensures |s| == n * m.Length1
    decreases n
  {
    if n == 0 then [] else Rows(m, n - 1) + Row(m, n - 1)
  }

  /** Row `i` of the first `n` rows starts at offset i * columns. */
  lemma {:induction false} RowsAt<T>(m: array2<T>, n: nat, i: nat, j: nat)
    requires n <= m.Length0 && i < n && j < m.Length1
    ensures i * m.Length1 + j < |Rows(m, n)| && Rows(m, n)[i * m.Length1 + j] == m[i, j]
    decreases n
  {
    var c := m.Length1;
    if i < n - 1 {
      RowsAt(m, n - 1, i, j);
    } else {
      assert i * c == (n - 1) * c;
    }
  }

  /**
   * The storage of a rectangular .NET array: its elements in row-major
   * order, which is what Buffer.BlockCopy reads when handed a `T[,]`.
   */
  function RowMajor<T>(m: array2<T>): (s: seq<T>)
    reads m
    ensures |s| == ElementCount(m)
  {
    Rows(m, m.Length0)
  }

  /**
   * Element (i, j) of a matrix sits at index i * columns + j of its
   * storage; with the length above, every index is exactly one element.
   */
  lemma RowMajorAt<T>(m: array2<T>, i: nat, j: nat)
    requires i < m.Length0 && j < m.Length1
    ensures i * m.Length1 + j < ElementCount(m) && RowMajor(m)[i * m.Length1 + j] == m[i, j]
  {
    RowsAt(m, m.Length0, i, j);
  }

  /**
   * Buffer.BlockCopy(src, srcOffset, dst, dstOffset, count) on arrays of
   * 8-byte elements: `src` is the storage of the source array, offsets and
   * count are in bytes.  Only whole elements are copied here: the ghost
   * parameters `from`, `to` and `n` are the byte offsets and count in
   * elements.  The runtime rejects a block that does not lie inside both
   * arrays; here that is the caller's obligation.  The bytes written are
   * exactly the elements of the block, and nothing else of `dst` changes.
   */
  method BlockCopy<T>(src: seq<T>, srcOffset: int32, dst: array<T>, dstOffset: int32, count: int32,
                      ghost from: nat, ghost to: nat, ghost n: nat)
    requires srcOffset as int == 8 * from && dstOffset as int == 8 * to && count as int == 8 * n
    requires from + n <= |src| && to + n <= dst.Length
    modifies dst
    ensures dst[..] == old(dst[..to]) + src[from .. from + n] + old(dst[to + n ..])
  {
    var first, target, length := srcOffset / 8, dstOffset / 8, count / 8;
    var k: int32 := 0;
    while k < length
      invariant 0 <= k <= length && length as int == n
      invariant first as int == from && target as int == to
      invariant forall p :: 0 <= p < to || to + k as int <= p < dst.Length ==> dst[p] == old(dst[p])
      invariant forall p :: to <= p < to + k as int ==> dst[p] == src[from + (p - to)]
    {
      dst[target + k] := src[first + k];
      k := k + 1;
    }
    assert dst[..] == old(dst[..to]) + src[from .. from + n] + old(dst[to + n ..]);
  }
}
