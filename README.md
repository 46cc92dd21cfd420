# LayerGradient flattening (NeuralNetwork.NET)

During back-propagation, NeuralNetwork.NET holds the gradient of each network
layer in a `LayerGradient` struct. The struct has two parts:

- `DJdw`, the gradient with respect to the weights, a rectangular `double[,]`;
- `Djdb`, the gradient with respect to the biases, a `double[]`.

The extension method `LayerGradientExtensions.Flatten` turns an ordered list
of these gradients into one linear `double[]`:

- for each layer in list order, the matrix comes first in row-major order, then the bias vector;
- there are no gaps or padding;
- the result is sized once, by the sum of the layers' element counts;
- the values are moved with `Buffer.BlockCopy` at a running byte cursor.

The model is made of two Dafny modules:

- `DotNet` (`dotnet.dfy`) holds the runtime pieces the flattener relies on:
  - the 32-bit `int`;
  - `T[,].Length`;
  - the row-major storage of a `T[,]`;
  - `Buffer.BlockCopy`, a method on an `array` that copies whole 8-byte elements at byte offsets.
- `LayerGradients` (`layer_gradient.dfy`) holds the rest:
  - the struct, as a datatype of two array references;
  - `TotalSize`, the LINQ `Sum` of element counts;
  - `Flat`, the specification of the flat layout;
  - `Flatten`, as an imperative method with the source's `foreach` loop and byte cursor;
  - lemmas about where every value lands.

The element type is a type parameter `T`, because values are only moved and
never computed on. The source uses `double`.

How the proof is organised:

- `Flatten`'s loop keeps the cursor equal to 8 × the size of the layers already copied.
- The loop also keeps the first part of the buffer equal to the layout of those layers (`FlatBefore`).
- One pass of the loop body is `CopyLayer`. It is two `CopyBlock`s, one for the matrix and one for the bias vector. Each does `n = 8 × Length`, then `BlockCopy`, then `position += n`.
- `LayerCopied` proves that one pass extends the layout by exactly one layer.
- `FlatBeforePrefix` and `FlatBeforeAll` tie the running layout to `Flat`.

## Model

| member | source | states |
|---|---|---|
| LayerGradients.Flatten | NeuralNetwork.NET/Networks/Implementations/Misc/LayerGradient.cs:43-58 | It returns a new array whose length is the sum of `DJdw.Length + Djdb.Length` over the list (0 for an empty list) and whose contents are exactly `Flat`: each layer's matrix in row-major order, then its bias vector, in list order. It has no modifies clause, so the input arrays are only read. (The body also proves that after the last pass the loop's cursor equals 8 × the result's length.) |
| LayerGradients.FlattenTwice | NeuralNetwork.NET/Networks/Implementations/Misc/LayerGradient.cs:41-46 | Flattening the same unmodified list twice gives two distinct, newly allocated arrays. Both hold exactly the flat layout of the list. The method is pure and deterministic, and its result aliases nothing it returned before. |
| LayerGradients.FlatFramed | NeuralNetwork.NET/Networks/Implementations/Misc/LayerGradient.cs:41-42 | The flat layout depends only on the contents of the arrays the list refers to. If none of them changes, the layout does not change. |
| LayerGradients.CopyLayer | NeuralNetwork.NET/Networks/Implementations/Misc/LayerGradient.cs:48-56 | One pass of the `foreach` body for layer `i`. If the buffer began with the layout of layers 0..i-1 and the cursor was 8 × their size, then afterwards the buffer begins with the layout of layers 0..i, the cursor has advanced by 8 × the layer's size, and the rest of the buffer is unchanged. |
| LayerGradients.CopyBlock | NeuralNetwork.NET/Networks/Implementations/Misc/LayerGradient.cs:50-55 | `n = sizeof(double) * Length`, then a block copy of the array's storage to the cursor, then `position += n`. The cursor advances by 8 bytes per element. The buffer is the old buffer with the array spliced in at the cursor, and nothing else changes. |
| LayerGradients.LayerCopied | NeuralNetwork.NET/Networks/Implementations/Misc/LayerGradient.cs:48-56 | Copying a layer's matrix at the end of the running layout, and then its bias vector right after it, extends the running layout by exactly that layer. The part of the buffer beyond it is left as it was. |
| LayerGradients.AdjacentCopies | NeuralNetwork.NET/Networks/Implementations/Misc/LayerGradient.cs:51-54 | Two block copies side by side, where the second starts where the first ended, have the effect of one copy of their concatenation. |
| LayerGradients.FlatBefore | NeuralNetwork.NET/Networks/Implementations/Misc/LayerGradient.cs:47-56 | After `i` passes, the buffer holds the first `i` layers' values. Their number is `SizeBefore`, the byte cursor divided by 8. |
| LayerGradients.FlatBeforePrefix | NeuralNetwork.NET/Networks/Implementations/Misc/LayerGradient.cs:47-56 | After `i` passes, the cursor in elements equals the total size of the first `i` layers, and this is at most the total size. So every copy stays inside the result. The running contents equal the layout of the list's first `i` layers. |
| LayerGradients.FlatBeforeAll | NeuralNetwork.NET/Networks/Implementations/Misc/LayerGradient.cs:46-57 | After the last pass, the cursor in elements equals the array length computed on line 46, and the contents are the whole layout. |
| LayerGradients.Flat | NeuralNetwork.NET/Networks/Implementations/Misc/LayerGradient.cs:46-56 | The layout that `Flatten` produces has exactly as many values as the `Sum` used to size the result. |
| LayerGradients.TotalSizeConcat | NeuralNetwork.NET/Networks/Implementations/Misc/LayerGradient.cs:46-46 | The size sum is additive over a concatenation of gradient lists. |
| LayerGradients.TotalSizePrefix | NeuralNetwork.NET/Networks/Implementations/Misc/LayerGradient.cs:46-46 | The size of any prefix of the list is at most the total size. |
| LayerGradients.FlatConcat | NeuralNetwork.NET/Networks/Implementations/Misc/LayerGradient.cs:48-56 | Flattening a concatenation of lists gives the concatenation of their flat buffers. |
| LayerGradients.FlatSingle | NeuralNetwork.NET/Networks/Implementations/Misc/LayerGradient.cs:50-55 | A single layer flattens to its matrix in row-major order followed by its bias vector, and contributes `DJdw.Length + Djdb.Length` values. |
| LayerGradients.FlatSnoc | NeuralNetwork.NET/Networks/Implementations/Misc/LayerGradient.cs:48-56 | Appending a layer to the list appends its matrix and then its bias vector to the flat buffer. |
| LayerGradients.FlatLayout | NeuralNetwork.NET/Networks/Implementations/Misc/LayerGradient.cs:48-56 | Layer `k` starts at the total size of the layers before it. Its matrix storage fills the next `DJdw.Length` slots, and its bias vector follows at once. The next layer starts right after it. |
| LayerGradients.FlatWeightStorageAt | NeuralNetwork.NET/Networks/Implementations/Misc/LayerGradient.cs:50-51 | Storage index `y` of layer `k`'s matrix lands at offset `y` past the layer's start. |
| LayerGradients.FlatWeightAt | NeuralNetwork.NET/Networks/Implementations/Misc/LayerGradient.cs:50-51 | Matrix element (i, j) of layer `k` lands at index start(k) + i × columns + j of the flat buffer. |
| LayerGradients.FlatBiasAt | NeuralNetwork.NET/Networks/Implementations/Misc/LayerGradient.cs:53-54 | Bias element `j` of layer `k` lands at index start(k) + `DJdw.Length` + j. |
| LayerGradients.FlatTwoLayers | NeuralNetwork.NET/Networks/Implementations/Misc/LayerGradient.cs:43-58 | A concrete case. A 2×2 matrix [[1,2],[3,4]] with bias [5,6], followed by a 1×1 matrix [[7]] with bias [8], flattens to [1,2,3,4,5,6,7,8]. |
| LayerGradients.LayerGradient | NeuralNetwork.NET/Networks/Implementations/Misc/LayerGradient.cs:12-29 | The struct: a datatype of the two get-only references, `DJdw` (a non-null `T[,]`) and `Djdb` (a non-null `T[]`), stored exactly as given and never replaced. The struct's default value, with null fields, is not modelled (see "## Left out"). |
| LayerGradients.Count | NeuralNetwork.NET/Networks/Implementations/Misc/LayerGradient.cs:46-46 | The summand `g.DJdw.Length + g.Djdb.Length`: the number of values one layer contributes. |
| LayerGradients.TotalSize | NeuralNetwork.NET/Networks/Implementations/Misc/LayerGradient.cs:46-46 | The LINQ `Sum` of `Count` over the list, 0 for the empty list: the length of the result. |
| DotNet.ElementCount | NeuralNetwork.NET/Networks/Implementations/Misc/LayerGradient.cs:46-50 | `T[,].Length`: rows × columns. |
| LayerGradients.SizeBefore | NeuralNetwork.NET/Networks/Implementations/Misc/LayerGradient.cs:47-56 | The byte cursor `position` divided by 8 after `i` passes: the sum of `Count` over the first `i` layers. |
| DotNet.Wrap | NeuralNetwork.NET/Networks/Implementations/Misc/LayerGradient.cs:50-55 | Unchecked C# `int` arithmetic. The result differs from the exact value by a multiple of 2^32, and equals it when the exact value fits in an `int`. |
| LayerGradients.UncheckedByteCount | NeuralNetwork.NET/Networks/Implementations/Misc/LayerGradient.cs:50-53 | `sizeof(double) * Length` as written, an unchecked product. It is a multiple of 8, never more than the true byte count, and exact for fewer than 2^28 elements. |
| LayerGradients.ByteCountWraps | NeuralNetwork.NET/Networks/Implementations/Misc/LayerGradient.cs:50-53 | Where the unchecked byte count goes wrong. It is negative for lengths in [2^28, 2^29) and [3·2^28, 2^30). For lengths in [2^29, 3·2^28) it is 8 × length − 2^32, which is not negative, so 536,870,913 elements give 8 bytes. 2^30 elements give 0 bytes. |
| LayerGradients.ByteCountPeriodic | NeuralNetwork.NET/Networks/Implementations/Misc/LayerGradient.cs:50-53 | The unchecked byte count depends only on the length modulo 2^29, so the wrap pattern repeats up to `int.MaxValue`. |
| LayerGradients.CursorWraps | NeuralNetwork.NET/Networks/Implementations/Misc/LayerGradient.cs:50-55 | How the as-written cursor turns negative. A matrix of 2^28 − 1 elements moves it to 0x7FFFFFF8, and a one-element bias vector after it wraps `position += n` to −2^31. |
| LayerGradients.SummandWraps | NeuralNetwork.NET/Networks/Implementations/Misc/LayerGradient.cs:46-54 | The lambda's summand wraps. For the two layers in "## Findings", the unchecked summands are −1,610,612,735 and 1,610,612,736, and together they give a `Sum` of 1. The byte counts of the four arrays wrap to 0, 8, 0 and 0. |
| LayerGradients.CopyBlockAsWritten | NeuralNetwork.NET/Networks/Implementations/Misc/LayerGradient.cs:50-55 | Half a pass exactly as written. The cursor is either the true one or has already wrapped to a negative value, and the result may have any length, including one that a wrapped `Sum` made too short. If the cursor or the unchecked count is negative, `BlockCopy` throws `ArgumentOutOfRangeException`. If the block runs past the end of the result, it throws `ArgumentException`. In both cases the buffer is unchanged. Otherwise only the first count / 8 elements of the array are spliced in at the cursor, and the cursor advances by an unchecked sum. |
| DotNet.RowMajor | NeuralNetwork.NET/Networks/Implementations/Misc/LayerGradient.cs:50-51 | The storage `BlockCopy` reads from a `T[,]` holds exactly `Length` = rows × columns elements. |
| DotNet.RowMajorAt | NeuralNetwork.NET/Networks/Implementations/Misc/LayerGradient.cs:51-51 | Element (i, j) of a matrix is at index i × columns + j of its row-major storage. |
| DotNet.BlockCopy | NeuralNetwork.NET/Networks/Implementations/Misc/LayerGradient.cs:51-54 | A block copy whose byte offsets and byte count fit in both arrays writes exactly the source elements of the block at the destination offset. Every other element of the destination is unchanged. |

## Findings

| source | as written | input that shows it | evidently intended | confidence | as-written member | corrected member |
|---|---|---|---|---|---|---|
| NeuralNetwork.NET/Networks/Implementations/Misc/LayerGradient.cs:50-54 | `int n = sizeof(double) * layer.DJdw.Length` is an unchecked `int` product. For some array lengths, for example 2^29 to 3·2^28 − 1 elements (the pattern repeats every 2^29), it wraps to a smaller non-negative byte count, and `BlockCopy` copies only that many bytes without any error. | One layer whose `DJdw` is 1 × 536,870,913 and whose `Djdb` is empty. `Sum` is 536,870,913 and does not overflow, but `n` = 8, so one element is copied and the rest of the result stays 0. | Every value of every layer is copied, or the call fails. | not executed | LayerGradients.CopyBlockAsWritten, LayerGradients.ByteCountWraps | LayerGradients.CopyBlock |
| NeuralNetwork.NET/Networks/Implementations/Misc/LayerGradient.cs:46-54 | The summand `g.DJdw.Length + g.Djdb.Length` in the `Sum` lambda is an unchecked `int` sum. Only `Sum`'s accumulation is checked, so a wrapped summand gives the result a wrong length without any exception. The byte counts then wrap too, and can make every copy fit. | Layer A: `DJdw` 1 × 1,610,612,736 and `Djdb` of 1,073,741,825 values. Layer B: `DJdw` 1 × 1,073,741,824 and `Djdb` of 536,870,912 values. The summands wrap to −1,610,612,735 and 1,610,612,736, so `Sum` is 1 and the result has length 1. The four byte counts wrap to 0, 8, 0 and 0, so every `BlockCopy` fits, and the source returns `[A.Djdb[0]]` instead of about 4.3·10^9 values. | The result holds every value of every layer, or the call fails. | not executed | LayerGradients.SummandWraps, LayerGradients.CopyBlockAsWritten | LayerGradients.Flatten |

## Left out

- Byte-level `Buffer.BlockCopy`: offsets and counts are whole multiples of `sizeof(double)` = 8. The ghost parameters of `BlockCopy` give them in elements, so partial elements and byte reinterpretation are not modelled. `Flatten` only ever copies whole elements.
- Floating point: values are only moved and never computed on, so `double` becomes a type parameter.
- Enumeration: `IReadOnlyList<LayerGradient>` and its enumerator are modelled as a Dafny `seq`, walked by index in list order.
- LINQ `Sum` is the recursive function `TotalSize`. Its checked-overflow `OverflowException` is not modelled.
- Flatten: requires 8 × `TotalSize` ≤ `int.MaxValue`, so that no `int` result of the loop wraps. The source's `int` arithmetic is unchecked, and above the bound it behaves in ways the model does not follow. An array's byte count `sizeof(double) * Length` (lines 50 and 53) can wrap to a negative value, and then `BlockCopy` throws. It can also wrap to a smaller non-negative value, and then `BlockCopy` silently copies only part of the array (see "## Findings"; `CopyBlockAsWritten` models this for one copy). The cursor `position` can wrap, and a negative cursor makes the next `BlockCopy` throw. If only the last `position += n` wraps, the source still returns the correct buffer, while the model excludes that input. The per-layer summand `g.DJdw.Length + g.Djdb.Length` on line 46 is itself an unchecked sum, so it can wrap, even to a negative value. `Sum` then returns a wrong and possibly tiny length without throwing (see "## Findings"). Only when the accumulation of the wrapped summands leaves the `int` range does `Sum` throw `OverflowException`. Where the runtime limits objects to 2 GB, allocating the result throws `OutOfMemoryException`.
- JetBrains annotations: `[NotNull]` becomes Dafny's non-null array types. `[Pure]` and `[CollectionAccess(Read)]` become the absence of a modifies clause on `Flatten`. Null arguments and the resulting `NullReferenceException` cannot arise in the model. That includes a default-initialised `LayerGradient` (`default(LayerGradient)`), whose fields are null without the constructor having run; on such a layer the `Sum` lambda throws.
- The `LayerGradient` constructor (lines 24-28) is the datatype constructor. Its selectors return exactly the references it was given, and a datatype value cannot be changed, so no separate member states this.
- Nothing in the source relates a layer's bias length to its matrix shape, and the model requires no such relation either.
