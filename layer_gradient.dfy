/**
 * The gradient of one network layer (a weight-gradient matrix and a
 * bias-gradient vector) and the flattening of an ordered list of such
 * gradients into one contiguous buffer: for every layer in list order, its
 * matrix in row-major order, then its bias vector.
 *
 * Element values are only moved, never computed on, so the element type is
 * a type parameter `T` (the source uses `double`).
 */
module LayerGradients {
  import opened DotNet

  /**
   * One layer's gradient.  The two fields are the get-only properties
   * `DJdw` and `Djdb`; the datatype constructor stores exactly the array
   * references it is given, and nothing can replace them afterwards.
   * Dafny's array types are non-null, which is the `[NotNull]` contract of
   * the source constructor.  No relation between the bias length and the
   * matrix shape is required.
   */
  datatype LayerGradient<T> = LayerGradient(DJdw: array2<T>, Djdb: array<T>)

  /** `g.DJdw.Length + g.Djdb.Length`: the number of values one layer contributes. */
  function Count<T>(g: LayerGradient<T>): nat
  {
    ElementCount(g.DJdw) + g.Djdb.Length
  }

  /** The size of the flat buffer: the sum of `Count` over the list. */
  function TotalSize<T>(gs: seq<LayerGradient<T>>): nat
  {
    if gs == [] then 0 else Count(gs[0]) + TotalSize(gs[1..])
  }

  /** Every array the list of gradients refers to. */
  ghost function Footprint<T>(gs: seq<LayerGradient<T>>): set<object>
  {
    (set k | 0 <= k < |gs| :: gs[k].DJdw as object) + (set k | 0 <= k < |gs| :: gs[k].Djdb as object)
  }

  /**
   * The flat layout depends only on the contents of the arrays the list
   * refers to: as long as none of them changes, neither does the layout.
   */
  twostate lemma FlatFramed<T>(gs: seq<LayerGradient<T>>)
    requires unchanged(Footprint(gs))
    ensures Flat(gs) == old(Flat(gs))
  {
  }

  /**
   * The specification of the flat layout: each layer's matrix in row-major
   * order immediately followed by its bias vector, layers in list order,
   * with no gaps or padding.
   */
  ghost function Flat<T>(gs: seq<LayerGradient<T>>): (s: seq<T>)
    reads Footprint(gs)
    ensures |s| == TotalSize(gs)
  {
    if gs == [] then [] else RowMajor(gs[0].DJdw) + gs[0].Djdb[..] + Flat(gs[1..])
  }

  /** Sizes add up over a concatenation of lists. */
  lemma {:induction false} TotalSizeConcat<T>(a: seq<LayerGradient<T>>, b: seq<LayerGradient<T>>)
    ensures TotalSize(a + b) == TotalSize(a) + TotalSize(b)
  {
    if a == [] {
      assert a + b == b;
    } else {
      assert (a + b)[1..] == a[1..] + b;
      TotalSizeConcat(a[1..], b);
    }
  }

  /** Flattening a concatenation of lists concatenates the flat buffers. */
  lemma {:induction false} FlatConcat<T>(a: seq<LayerGradient<T>>, b: seq<LayerGradient<T>>)
    ensures Flat(a + b) == Flat(a) + Flat(b)
  {
    if a == [] {
      assert a + b == b;
    } else {
      assert (a + b)[1..] == a[1..] + b;
      FlatConcat(a[1..], b);
    }
  }

  /** One layer on its own contributes its matrix, then its bias vector. */
  lemma FlatSingle<T>(g: LayerGradient<T>)
    ensures Flat([g]) == RowMajor(g.DJdw) + g.Djdb[..]
    ensures TotalSize([g]) == Count(g)
  {
  }

  /**
   * Appending one layer to the list appends that layer's matrix and then
   * its bias vector to the flat buffer.
   */
  lemma FlatSnoc<T>(gs: seq<LayerGradient<T>>, g: LayerGradient<T>)
    ensures Flat(gs + [g]) == Flat(gs) + RowMajor(g.DJdw) + g.Djdb[..]
  {
    FlatConcat(gs, [g]);
    FlatSingle(g);
  }

  /** The size of a prefix of the list is at most the total size. */
  lemma TotalSizePrefix<T>(gs: seq<LayerGradient<T>>, n: nat)
    requires n <= |gs|
    ensures TotalSize(gs[..n]) <= TotalSize(gs)
  {
    assert gs == gs[..n] + gs[n..];
    TotalSizeConcat(gs[..n], gs[n..]);
  }

  /**
   * Where layer `k` lives in the flat buffer.  It starts at the total size of
   * the layers before it; its matrix occupies the next ElementCount(DJdw)
   * slots, element (i, j) at i * columns + j; its bias vector follows at
   * once; and the next layer starts right after it.  This is what a
   * consumer of the buffer needs to cut it back into per-layer slices.
   */
  lemma {:induction false} FlatLayout<T>(gs: seq<LayerGradient<T>>, k: nat)
    requires k < |gs|
    ensures var start, w := TotalSize(gs[..k]), ElementCount(gs[k].DJdw);
      && TotalSize(gs[..k + 1]) == start + w + gs[k].Djdb.Length <= |Flat(gs)|
      && Flat(gs)[start .. start + w] == RowMajor(gs[k].DJdw)
      && Flat(gs)[start + w .. TotalSize(gs[..k + 1])] == gs[k].Djdb[..]
  {
    var g := gs[k];
    assert gs == gs[..k + 1] + gs[k + 1..];
    assert gs[..k + 1] == gs[..k] + [g];
    FlatConcat(gs[..k + 1], gs[k + 1..]);
    FlatSnoc(gs[..k], g);
    TotalSizeConcat(gs[..k + 1], gs[k + 1..]);
    Pieces(Flat(gs), Flat(gs[..k]), RowMajor(g.DJdw), g.Djdb[..], Flat(gs[k + 1..]));
  }

  /** The middle pieces of a four-piece concatenation are its slices at the summed lengths. */
  lemma Pieces<T>(s: seq<T>, a: seq<T>, w: seq<T>, b: seq<T>, c: seq<T>)
    requires s == a + w + b + c
    ensures s[|a| .. |a| + |w|] == w && s[|a| + |w| .. |a| + |w| + |b|] == b
  {
  }

  /** Element `y` of a slice is element lo + y of the whole. */
  lemma SliceAt<T>(s: seq<T>, lo: nat, hi: nat, t: seq<T>, y: nat)
    requires lo <= hi <= |s| && s[lo..hi] == t && y < |t|
    ensures lo + y < |s| && s[lo + y] == t[y]
  {
  }

  /** Index `y` of layer `k`'s matrix storage lands at offset `y` past the layer's start. */
  lemma FlatWeightStorageAt<T>(gs: seq<LayerGradient<T>>, k: nat, y: nat)
    requires k < |gs| && y < ElementCount(gs[k].DJdw)
    ensures TotalSize(gs[..k]) + y < |Flat(gs)|
    ensures Flat(gs)[TotalSize(gs[..k]) + y] == RowMajor(gs[k].DJdw)[y]
  {
    var start := TotalSize(gs[..k]);
    FlatLayout(gs, k);
    SliceAt(Flat(gs), start, start + ElementCount(gs[k].DJdw), RowMajor(gs[k].DJdw), y);
  }

  /** The layout element by element: where element (i, j) of layer `k`'s matrix lands. */
  lemma FlatWeightAt<T>(gs: seq<LayerGradient<T>>, k: nat, i: nat, j: nat)
    requires k < |gs| && i < gs[k].DJdw.Length0 && j < gs[k].DJdw.Length1
    ensures var x := TotalSize(gs[..k]) + i * gs[k].DJdw.Length1 + j;
      x < |Flat(gs)| && Flat(gs)[x] == gs[k].DJdw[i, j]
  {
    RowMajorAt(gs[k].DJdw, i, j);
    FlatWeightStorageAt(gs, k, i * gs[k].DJdw.Length1 + j);
  }

  /** Where element `j` of layer `k`'s bias vector lands. */
  lemma FlatBiasAt<T>(gs: seq<LayerGradient<T>>, k: nat, j: nat)
    requires k < |gs| && j < gs[k].Djdb.Length
    ensures var x := TotalSize(gs[..k]) + ElementCount(gs[k].DJdw) + j;
      x < |Flat(gs)| && Flat(gs)[x] == gs[k].Djdb[j]
  {
    var mid := TotalSize(gs[..k]) + ElementCount(gs[k].DJdw);
    FlatLayout(gs, k);
    SliceAt(Flat(gs), mid, TotalSize(gs[..k + 1]), gs[k].Djdb[..], j);
  }

  /**
   * The byte cursor of the `foreach` loop, in elements: where layer `i` starts,
   * i.e. the number of values the first `i` layers contribute.  This and
   * `FlatBefore` are `TotalSize` and `Flat` of the first `i` layers written
   * as left folds (`FlatBeforePrefix`), which keeps the loop's proof cheap.
   */
  function SizeBefore<T>(gs: seq<LayerGradient<T>>, i: nat): nat
    requires i <= |gs|
  {
    if i == 0 then 0 else SizeBefore(gs, i - 1) + Count(gs[i - 1])
  }

  /** What the buffer holds once the first `i` layers have been copied in. */
  ghost function FlatBefore<T>(gs: seq<LayerGradient<T>>, i: nat): (s: seq<T>)
    requires i <= |gs|
    reads Footprint(gs)
    ensures |s| == SizeBefore(gs, i)
  {
    if i == 0 then [] else FlatBefore(gs, i - 1) + RowMajor(gs[i - 1].DJdw) + gs[i - 1].Djdb[..]
  }

  /** The loop's running state agrees with the layout of the first `i` layers. */
  lemma {:induction false} FlatBeforePrefix<T>(gs: seq<LayerGradient<T>>, i: nat)
    requires i <= |gs|
    ensures SizeBefore(gs, i) == TotalSize(gs[..i]) <= TotalSize(gs)
    ensures FlatBefore(gs, i) == Flat(gs[..i])
  {
    TotalSizePrefix(gs, i);
    if i == 0 {
      assert gs[..0] == [];
    } else {
      FlatBeforePrefix(gs, i - 1);
      assert gs[..i] == gs[..i - 1] + [gs[i - 1]];
      FlatSnoc(gs[..i - 1], gs[i - 1]);
      TotalSizeConcat(gs[..i - 1], [gs[i - 1]]);
      FlatSingle(gs[i - 1]);
    }
  }

  /** Once every layer has been copied in, the running layout is the whole layout. */
  lemma FlatBeforeAll<T>(gs: seq<LayerGradient<T>>)
    ensures SizeBefore(gs, |gs|) == TotalSize(gs)
    ensures FlatBefore(gs, |gs|) == Flat(gs)
  {
    FlatBeforePrefix(gs, |gs|);
    assert gs[..|gs|] == gs;
  }

  /**
   * The step of the `foreach` loop.  Suppose the buffer `before` held the
   * running layout of the first `i` layers; layer `i`'s matrix was then
   * copied in right after them, giving `middle`, and its bias vector right
   * after that, giving `after`, all without touching any gradient array.
   * Then `after` holds the running layout of the first i + 1 layers, and
   * agrees with `before` beyond it.
   */
  twostate lemma LayerCopied<T>(gs: seq<LayerGradient<T>>, new i: nat, new before: seq<T>, new middle: seq<T>, new after: seq<T>)
    requires i < |gs| && SizeBefore(gs, i + 1) <= |before|
    requires unchanged(Footprint(gs))
    requires before[..SizeBefore(gs, i)] == old(FlatBefore(gs, i))
    requires var start, w := SizeBefore(gs, i), old(RowMajor(gs[i].DJdw));
      middle == before[..start] + w + before[start + |w| ..]
    requires var mid, b := SizeBefore(gs, i) + ElementCount(gs[i].DJdw), old(gs[i].Djdb[..]);
      after == middle[..mid] + b + middle[mid + |b| ..]
    ensures after[..SizeBefore(gs, i + 1)] == FlatBefore(gs, i + 1)
    ensures after[SizeBefore(gs, i + 1) ..] == before[SizeBefore(gs, i + 1) ..]
  {
    var start, end := SizeBefore(gs, i), SizeBefore(gs, i + 1);
    var w, b := old(RowMajor(gs[i].DJdw)), old(gs[i].Djdb[..]);
    AdjacentCopies(before, start, start + |w|, end, w, b, middle, after);
    FilledUpTo(before, start, end, w, b, after);
  }

  /** After a block is written at [start, end), the first `end` elements are the old prefix and the block. */
  lemma FilledUpTo<T>(before: seq<T>, start: nat, end: nat, w: seq<T>, b: seq<T>, after: seq<T>)
    requires start <= end <= |before| && |w| + |b| == end - start
    requires after == before[..start] + w + b + before[end..]
    ensures after[..end] == before[..start] + w + b
  {
  }

  /**
   * Two block copies side by side: overwriting [start, mid) with `w` and then
   * [mid, end) with `b` overwrites [start, end) with w + b.
   */
  lemma AdjacentCopies<T>(before: seq<T>, start: nat, mid: nat, end: nat, w: seq<T>, b: seq<T>, middle: seq<T>, after: seq<T>)
    requires start <= mid <= end <= |before| && |w| == mid - start && |b| == end - mid
    requires middle == before[..start] + w + before[mid..]
    requires after == middle[..mid] + b + middle[end..]
    ensures after == before[..start] + w + b + before[end..]
  {
  }

  /**
   * Half a pass of the `foreach` body: the byte count of one array, the
   * block copy of its storage `src` to the byte cursor `position`, and the
   * cursor's advance past it.  The block lands at element `at` and nothing
   * else of `result` changes.
   */
  method CopyBlock<T>(src: seq<T>, result: array<T>, position: int32, ghost at: nat) returns (next: int32)
    requires position as int == 8 * at
    requires at + |src| <= result.Length && 8 * result.Length <= INT_MAX
    modifies result
    ensures next as int == 8 * (at + |src|)
    ensures var before := old(result[..]); result[..] == before[..at] + src + before[at + |src| ..]
  {
    var n: int32 := SIZE_OF_DOUBLE * (|src| as int32);
    BlockCopy(src, 0, result, position, n, 0, at, |src|);
    assert src[0 .. |src|] == src;
    next := position + n;
  }

  /**
   * The byte count `sizeof(double) * Length` as the source computes it: a
   * C# `int` product, which is unchecked and so keeps only the low 32 bits.
   * It is always a multiple of 8 and never more than the true byte count,
   * and it is the true byte count for arrays of fewer than 2^28 elements.
   */
  function UncheckedByteCount(length: nat): (n: int32)
    requires length <= INT_MAX
    ensures n as int % 8 == 0 && n as int <= 8 * length
    ensures length < 0x1000_0000 ==> n as int == 8 * length
  {
    Wrap(SIZE_OF_DOUBLE as int * length)
  }

  /**
   * Where the unchecked byte count goes wrong (it repeats with period 2^29,
   * `ByteCountPeriodic`).  For 2^28 <= Length < 2^29 and 3 * 2^28 <= Length < 2^30
   * it is negative, and BlockCopy throws.  For 2^29 <= Length < 3 * 2^28
   * it wraps to a smaller count that is not negative, so the copy succeeds
   * but moves only part of the array: a matrix of 536,870,913 elements
   * yields 8 bytes, a single element, and one of 2^30 elements none.
   */
  lemma ByteCountWraps(length: nat)
    requires length <= INT_MAX
    ensures 0x1000_0000 <= length < 0x2000_0000 ==> UncheckedByteCount(length) < 0
    ensures 0x3000_0000 <= length < 0x4000_0000 ==> UncheckedByteCount(length) < 0
    ensures 0x2000_0000 <= length < 0x3000_0000 ==>
      0 <= UncheckedByteCount(length) as int == 8 * length - 0x1_0000_0000
    ensures length == 0x2000_0001 ==> UncheckedByteCount(length) == 8
    ensures length == 0x4000_0000 ==> UncheckedByteCount(length) == 0
  {
  }

  /** The unchecked byte count depends only on Length modulo 2^29. */
  lemma ByteCountPeriodic(length: nat)
    requires length <= INT_MAX
    ensures UncheckedByteCount(length) == UncheckedByteCount(length % 0x2000_0000)
  {
  }

  /**
   * How the cursor of the loop as written turns negative: a matrix of
   * 2^28 - 1 elements moves it to 0x7FFF_FFF8 without any wrap, and a
   * one-element bias vector after it wraps `position += n` to -2^31.
   */
  lemma CursorWraps()
    ensures UncheckedByteCount(0x0FFF_FFFF) as int == 0x7FFF_FFF8
    ensures Wrap(0x7FFF_FFF8 + UncheckedByteCount(1) as int) as int == -0x8000_0000
  {
  }

  /**
   * The outcome of one half pass of the loop as written: the cursor advanced,
   * or BlockCopy threw because an offset or the count was negative
   * (ArgumentOutOfRangeException) or the block ran past the end of the
   * destination (ArgumentException).
   */
  datatype CopyOutcome = Advanced(next: int32) | ArgumentOutOfRange | BlockPastEnd

  /**
   * Half a pass of the `foreach` body exactly as written: the byte count is
   * the unchecked product and the cursor advance is an unchecked sum, so the
   * cursor may already have wrapped to a negative value, and the result may
   * have been sized by a wrapped sum and be too short for the array.  A
   * negative cursor or a negative count makes BlockCopy throw, and so does a
   * block that runs past the end of `result`; otherwise only the first
   * count / 8 elements of `src` are copied, which is all of them only when
   * the count did not wrap.
   */
  method CopyBlockAsWritten<T>(src: seq<T>, result: array<T>, position: int32, ghost at: nat) returns (r: CopyOutcome)
    requires position < 0 || position as int == 8 * at
    requires |src| <= INT_MAX
    modifies result
    ensures var n := UncheckedByteCount(|src|) as int;
      if position < 0 || n < 0 then r == ArgumentOutOfRange && result[..] == old(result[..])
      else if at + n / 8 > result.Length then r == BlockPastEnd && result[..] == old(result[..])
      else (r == Advanced(Wrap(position as int + n))
            && result[..] == old(result[..at]) + src[..n / 8] + old(result[at + n / 8 ..]))
  {
    var n := UncheckedByteCount(|src|);
    if position < 0 || n < 0 {
      r := ArgumentOutOfRange;
    } else if position as int + n as int > SIZE_OF_DOUBLE as int * result.Length {
      r := BlockPastEnd;
    } else {
      BlockCopy(src, 0, result, position, n, 0, at, n as int / 8);
      assert src[0 .. n as int / 8] == src[..n as int / 8];
      r := Advanced(Wrap(position as int + n as int));
    }
  }

  /**
   * The per-layer summand `g.DJdw.Length + g.Djdb.Length` is an unchecked
   * `int` sum, so only the accumulation of the checked `Sum` can throw.  A
   * 1 x 3 * 2^29 matrix with a bias vector of 2^30 + 1 values and a
   * 1 x 2^30 matrix with a bias vector of 2^29 values have summands
   * -1,610,612,735 and 1,610,612,736, which `Sum` adds to 1 without an
   * overflow: the result gets length 1 instead of about 4.3 * 10^9, and the
   * four byte counts wrap to 0, 8, 0 and 0, so every copy fits.
   */
  lemma SummandWraps()
    ensures Wrap(0x6000_0000 + 0x4000_0001) as int == -1_610_612_735
    ensures Wrap(0x4000_0000 + 0x2000_0000) as int == 1_610_612_736
    ensures Wrap(0x6000_0000 + 0x4000_0001) as int + Wrap(0x4000_0000 + 0x2000_0000) as int == 1
    ensures UncheckedByteCount(0x6000_0000) == 0 && UncheckedByteCount(0x4000_0001) == 8
    ensures UncheckedByteCount(0x4000_0000) == 0 && UncheckedByteCount(0x2000_0000) == 0
  {
  }

  /**
   * One pass of the `foreach` body, for layer `i` of the list `gs`: copy the
   * layer's matrix to the byte cursor `position`, advance it, copy the bias
   * vector there, advance it again.  Both copies stay inside `result`; the
   * cursor moves by exactly the layer's size in bytes; the layer's values
   * land right after the first `i` layers and nothing else of `result`
   * changes.  So if `result` started with the running layout of the first
   * `i` layers, it now starts with that of the first i + 1.
   */
  method CopyLayer<T>(layer: LayerGradient<T>, result: array<T>, position: int32,
                      ghost gs: seq<LayerGradient<T>>, ghost i: nat) returns (next: int32)
    requires i < |gs| && layer == gs[i] && result !in Footprint(gs)
    requires position as int == 8 * SizeBefore(gs, i)
    requires SizeBefore(gs, i + 1) <= result.Length && 8 * result.Length <= INT_MAX
    requires result[..SizeBefore(gs, i)] == FlatBefore(gs, i)
    modifies result
    ensures next as int == 8 * SizeBefore(gs, i + 1)
    ensures result[..SizeBefore(gs, i + 1)] == FlatBefore(gs, i + 1)
    ensures result[SizeBefore(gs, i + 1) ..] == old(result[SizeBefore(gs, i + 1) ..])
  {
    ghost var before := result[..];
    next := CopyBlock(RowMajor(layer.DJdw), result, position, SizeBefore(gs, i));
    ghost var middle := result[..];
    next := CopyBlock(layer.Djdb[..], result, next, SizeBefore(gs, i) + ElementCount(layer.DJdw));
    LayerCopied(gs, i, before, middle, result[..]);
  }

  /**
   * `LayerGradientExtensions.Flatten`: size the buffer once, then copy each
   * layer's matrix and bias vector into it at a byte cursor.  The result is
   * a new array holding exactly `Flat(gradient)`; the input arrays are only
   * read.
   */
  method Flatten<T(0)>(gradient: seq<LayerGradient<T>>) returns (result: array<T>)
    requires 8 * TotalSize(gradient) <= INT_MAX
    ensures fresh(result)
    ensures result.Length == TotalSize(gradient)
    ensures result[..] == Flat(gradient)
  {
    if |gradient| == 0 {
      result := new T[0];
    } else {
      var size := TotalSize(gradient) as int32;
      result := new T[size];
      var position: int32 := 0;
      var i := 0;
      while i < |gradient|
        invariant 0 <= i <= |gradient|
        invariant position as int == 8 * SizeBefore(gradient, i) <= 8 * result.Length
        invariant result[..SizeBefore(gradient, i)] == FlatBefore(gradient, i)
        invariant result !in Footprint(gradient)
      {
        FlatBeforePrefix(gradient, i + 1);
        position := CopyLayer(gradient[i], result, position, gradient, i);
        i := i + 1;
      }
      assert i == |gradient|;
      FlatBeforeAll(gradient);
      assert position as int == 8 * result.Length;
    }
  }

  /**
   * Flattening the same, unmodified list twice gives two distinct new
   * arrays with identical contents, the flat layout of the list.
   */
  method FlattenTwice<T(0)>(gradient: seq<LayerGradient<T>>) returns (first: array<T>, second: array<T>)
    requires 8 * TotalSize(gradient) <= INT_MAX
    ensures fresh(first) && fresh(second) && first != second
    ensures first[..] == second[..] == Flat(gradient)
  {
    first := Flatten(gradient);
    label Between:
    second := Flatten(gradient);
    FlatFramed@Between(gradient);
  }

  /**
   * Two layers: a 2x2 matrix [[1, 2], [3, 4]] with bias [5, 6], then a 1x1
   * matrix [[7]] with bias [8], flatten to [1, 2, 3, 4, 5, 6, 7, 8].
   */
  lemma FlatTwoLayers(g0: LayerGradient<int>, g1: LayerGradient<int>)
    requires g0.DJdw.Length0 == 2 && g0.DJdw.Length1 == 2 && g0.Djdb.Length == 2
    requires g0.DJdw[0, 0] == 1 && g0.DJdw[0, 1] == 2 && g0.DJdw[1, 0] == 3 && g0.DJdw[1, 1] == 4
    requires g0.Djdb[0] == 5 && g0.Djdb[1] == 6
    requires g1.DJdw.Length0 == 1 && g1.DJdw.Length1 == 1 && g1.Djdb.Length == 1
    requires g1.DJdw[0, 0] == 7 && g1.Djdb[0] == 8
    ensures Flat([g0, g1]) == [1, 2, 3, 4, 5, 6, 7, 8]
  {
    RowMajorAt(g0.DJdw, 0, 0);
    RowMajorAt(g0.DJdw, 0, 1);
    RowMajorAt(g0.DJdw, 1, 0);
    RowMajorAt(g0.DJdw, 1, 1);
    RowMajorAt(g1.DJdw, 0, 0);
    assert RowMajor(g0.DJdw) == [1, 2, 3, 4];
    assert RowMajor(g1.DJdw) == [7];
    assert g0.Djdb[..] == [5, 6] && g1.Djdb[..] == [8];
    assert [] + [g0] == [g0] && [g0, g1] == [g0] + [g1];
    FlatSnoc([], g0);
    FlatSnoc([g0], g1);
  }
}
