# TokenMetadata: packed line tokens of the editor, in Dafny

This project models `TokenMetadata`, the static helper class of the editor's
token store (`src/vs/editor/common/model/tokensBinaryEncoding.ts`). A line's
tokens are kept in a `Uint32Array` of interleaved pairs
`(startOffset, metadata)`. Each 32-bit metadata word packs five bit-fields:
language id, token type, font style, foreground color and background color.
The class decodes those fields and builds the CSS class name of a token
(`mtk<foreground>` plus ` mtki`, ` mtkb`, ` mtku` for italic, bold and
underline). It also renders a word as a 32-digit binary string. Its segment
routines turn the whole array into renderer tokens (`inflateArr`), find the
segment that contains an offset (`findIndexInSegmentsArray`), and cut out a
window with shifted offsets (`sliceAndInflate`).

Files and modules:

- `modes.dfy`: modules `MetadataConsts` and `FontStyle`. They hold the masks,
  offsets and flag values the editor's `modes` module declares. That module is
  not part of this model. The layout is 8/3/3/9/9 bits at offsets
  0/8/11/14/23, with Italic = 1, Bold = 2 and Underline = 4.
- `view_line_token.dfy`: `ViewLineToken(startIndex, className)`, the renderer's
  token. The source calls the second field `type`, which is a reserved word in
  Dafny.
- `number_strings.dfy`: `NumberStrings` models `Number.prototype.toString` in
  base 2 and base 10, with the value a digit string denotes.
- `token_metadata.dfy`: `TokenMetadata`, the codec. It has the five decoders,
  the class name with its parser, and `ToBinaryStr`.
- `segment_array.dfy`: `SegmentArray`, the engine. It has `InflateArr`,
  `FindIndexInSegmentsArray` and `SliceAndInflate`, each a method with a loop
  over an `array<bv32>`. Each is proved against specification predicates and
  a reference floor function.

Modelling choices:

- Words are `bv32`. A decoder is `(metadata & MASK) >>> OFFSET`, and on
  `bv32` that is exact. JavaScript's signed `&` followed by the unsigned `>>>`
  gives the same bits.
- The bit-field lemmas are stated over any mask/offset pair (`Field`,
  `FieldIgnoresOtherBits`, `DisjointFieldUnchanged`). The `IsFieldLayout`
  predicate says a mask is one run of bits whose lowest set bit is its offset,
  and `LayoutIsPartition` proves the five fields are such runs, pairwise
  disjoint, and together cover all 32 bits.
- `Pack` is the encoder on the producer side, which is not in `tokensBinaryEncoding.ts`. It is
  the reference for the round trips `DecodePack` and `PackDecode`.
- `ToBinaryStr` takes a non-negative integer. JavaScript passes any number
  there. A word below 2^32 gets exactly 32 digits. A larger number keeps all
  of its digits, as the `while` loop does.
- `ViewLineToken.startIndex` is an `int`. `sliceAndInflate` computes
  `original - startOffset + deltaStartIndex`, and nothing in the code keeps
  that value non-negative.
- The first token of `sliceAndInflate` has offset `0`, as line 91 writes it.
  It does not get `deltaStartIndex`; only the later tokens are shifted by it.
  `SliceOffsetsIncrease` shows what stays true anyway: on a sorted array,
  with `deltaStartIndex >= 0`, the window's offsets strictly increase.
- On a sorted array the contract of `SliceAndInflate` names its starting
  segment: the floor index of `startOffset`. On any other array the search
  still returns a floor candidate (`IsFloorCandidate`), and the contract says
  the window starts at such a candidate.
- For an offset before the first start, the code returns 0 on a sorted array
  (`FloorIndexBeforeFirst`); on an unsorted array it returns some floor
  candidate.

## Model

| member | source | states |
|---|---|---|
| TokenMetadata.GetLanguageId | src/vs/editor/common/model/tokensBinaryEncoding.ts:36-38 | the language id is below 2^8 |
| TokenMetadata.GetTokenType | src/vs/editor/common/model/tokensBinaryEncoding.ts:40-42 | the token type is below 2^3 |
| TokenMetadata.GetFontStyle | src/vs/editor/common/model/tokensBinaryEncoding.ts:44-46 | the font style is below 2^3 |
| TokenMetadata.GetForeground | src/vs/editor/common/model/tokensBinaryEncoding.ts:48-50 | the foreground color is below 2^9 |
| TokenMetadata.GetBackground | src/vs/editor/common/model/tokensBinaryEncoding.ts:52-54 | the background color is below 2^9 |
| TokenMetadata.FieldIgnoresOtherBits | src/vs/editor/common/model/tokensBinaryEncoding.ts:36-54 | for any mask and offset, words that differ only outside the mask decode to the same field value |
| TokenMetadata.DisjointFieldUnchanged | src/vs/editor/common/model/tokensBinaryEncoding.ts:36-54 | overwriting the bits under one mask leaves every field with a disjoint mask unchanged |
| TokenMetadata.LayoutIsPartition | src/vs/editor/common/model/tokensBinaryEncoding.ts:36-54 | each of the five masks is one run of bits starting at its offset; the masks are pairwise disjoint and cover the word |
| TokenMetadata.DecodePack | src/vs/editor/common/model/tokensBinaryEncoding.ts:36-54 | each decoder returns exactly the in-range value packed into its field |
| TokenMetadata.PackDecode | src/vs/editor/common/model/tokensBinaryEncoding.ts:36-54 | the five decoded fields rebuild the word, so decoding is lossless |
| TokenMetadata.FieldsDetermineWord | src/vs/editor/common/model/tokensBinaryEncoding.ts:36-54 | two words with the same five fields are equal |
| TokenMetadata.ClassNameFromMetadata | src/vs/editor/common/model/tokensBinaryEncoding.ts:56-72 | the class name starts with "mtk" and is longer than it |
| TokenMetadata.ParseBuiltClassName | src/vs/editor/common/model/tokensBinaryEncoding.ts:58-69 | "mtk", the decimal foreground, then the markers in the order italic, bold, underline, is read back as that foreground and those three flags |
| TokenMetadata.ParseClassNameInverse | src/vs/editor/common/model/tokensBinaryEncoding.ts:56-72 | a word's class name reads back as its decimal foreground value and its italic, bold and underline bits, each marker present exactly when its bit is set |
| TokenMetadata.ClassNameEqualIff | src/vs/editor/common/model/tokensBinaryEncoding.ts:56-72 | two words get the same class name if and only if they agree on the foreground and the three font flags; no other bit shows in it |
| TokenMetadata.ToBinaryStr | src/vs/editor/common/model/tokensBinaryEncoding.ts:12-18 | the result is binary digits whose value is the input; it is the input's own digits with only '0's prepended; it has 32 characters for every 32-bit word |
| TokenMetadata.ZeroWordDump | src/vs/editor/common/model/tokensBinaryEncoding.ts:12-18 | the only 32-digit binary string of value 0 is 32 zeros, so that is the dump of 0 |
| TokenMetadata.OneWordDump | src/vs/editor/common/model/tokensBinaryEncoding.ts:12-18 | the dump of 1 is 31 zeros and then a one |
| NumberStrings.BinaryDigits | src/vs/editor/common/model/tokensBinaryEncoding.ts:13 | `toString(2)`: at least one binary digit, reading back as the number, with a leading '0' only for zero, and exactly "0" for zero |
| NumberStrings.BinaryValueInjective | src/vs/editor/common/model/tokensBinaryEncoding.ts:12-18 | binary strings of equal length with equal values are equal, so the 32-digit dump is unique |
| NumberStrings.DecimalDigits | src/vs/editor/common/model/tokensBinaryEncoding.ts:58 | the decimal digits of `'mtk' + foreground`: at least one digit, reading back as the number, with a leading '0' only for zero, and exactly "0" for zero |
| SegmentArray.InflateArr | src/vs/editor/common/model/tokensBinaryEncoding.ts:74-85 | one token per whole pair (length / 2 rounded down), token i carrying start offset tokens[2i] and the class name of tokens[2i+1]; the array is not modified |
| SegmentArray.LastStartAtMost | src/vs/editor/common/model/tokensBinaryEncoding.ts:109-128 | reference floor by linear scan: the result is 0 or a segment starting at most at the target, and every later segment starts after it |
| SegmentArray.CeilHalf | src/vs/editor/common/model/tokensBinaryEncoding.ts:116 | `Math.ceil(n / 2)` for n >= 0: twice the result is n or n + 1 |
| SegmentArray.FindIndexInSegmentsArray | src/vs/editor/common/model/tokensBinaryEncoding.ts:109-128 | 0 for an array without a whole pair; otherwise an index in [0, count-1] that is 0 or starts at most at the target and whose successor (if any) starts after it; on a sorted array, the floor index; terminates since low < mid <= high |
| SegmentArray.FloorCandidateIsFloorIndex | src/vs/editor/common/model/tokensBinaryEncoding.ts:114-127 | on a sorted array the bisection's exit condition determines the floor index uniquely |
| SegmentArray.FloorIndexMonotone | src/vs/editor/common/model/tokensBinaryEncoding.ts:109-128 | a <= b implies floor(a) <= floor(b) |
| SegmentArray.FloorIndexBeforeFirst | src/vs/editor/common/model/tokensBinaryEncoding.ts:111-127 | on a sorted array, a target before the first start gives 0 |
| SegmentArray.FloorIndexPastLast | src/vs/editor/common/model/tokensBinaryEncoding.ts:111-127 | a target at or past the last start gives the last index |
| SegmentArray.SliceAndInflate | src/vs/editor/common/model/tokensBinaryEncoding.ts:87-107 | with idx the floor index of startOffset (on an unsorted array, some floor candidate): a first token (0, class of tokens[2idx+1]), then segments idx+1, idx+2, ... in order at tokens[2i] - startOffset + deltaStartIndex, each starting before endOffset, stopping at the end or at the first segment starting at or after endOffset |
| SegmentArray.SliceIsDetermined | src/vs/editor/common/model/tokensBinaryEncoding.ts:87-107 | the window is fixed by the array, the segment and the three offsets |
| SegmentArray.SliceOffsetsIncrease | src/vs/editor/common/model/tokensBinaryEncoding.ts:93-104 | on a sorted array every later token lies beyond deltaStartIndex and the offsets strictly increase; with deltaStartIndex >= 0 the whole window strictly increases |
| SegmentArray.WholeLineSliceIsInflation | src/vs/editor/common/model/tokensBinaryEncoding.ts:74-107 | slicing a whole sorted line that starts at 0 from 0, unshifted, past every start, gives the inflated tokens |
| SegmentArray.SliceExample | src/vs/editor/common/model/tokensBinaryEncoding.ts:87-107 | segments at 0, 5, 10 and the window [3, 8) give (0, class of the first) and (2, class of the second) |

## Left out

- `printMetadata` (lines 20-34) only writes the five fields to the console, which is I/O.
- The enum declarations `MetadataConsts` and `FontStyle` and the class `ViewLineToken` belong to modules that are not part of this model. They are stubbed as constants and a datatype.
- JavaScript number semantics are not modelled: no doubles, no fractional offsets, no `NaN`. Offsets and `deltaStartIndex` are integers, and `Math.ceil((high - low) / 2)` is integer ceiling division (`CeilHalf`).
- The signed 32-bit `i << 1` in the index arithmetic is taken as `2 * i`. The two differ only for arrays of more than 2^30 pairs.
- ToBinaryStr: negative and non-integer arguments, for which `toString(2)` writes a sign or a fraction, are outside the model. Metadata words are never negative.
- SliceAndInflate requires at least one whole pair. On an array without a whole pair the source reads `tokens[1]` past the end; in JavaScript that read gives `undefined`, `undefined & MASK` is 0, and the source returns `[ViewLineToken(0, "mtk0")]` without failing. The model does not cover that case, since a `bv32` array has no `undefined` element.
- No error results are added for odd-length or empty arrays. An odd trailing word is ignored, as the code ignores it, and the search returns 0 on an array without a whole pair.
