// The segment array engine: a `Uint32Array` of interleaved pairs
// (startOffset, metadata), one pair per token of a line, turned into the
// renderer's tokens, searched by start offset, and re-sliced to a window.
module SegmentArray {

  import opened ViewLineTokens
  import opened TokenMetadata

  /** `tokens.length >>> 1`: the number of whole pairs; an odd trailing word is ignored. */
  function TokenCount(s: seq<bv32>): nat {
    |s| / 2
  }

  function StartOffset(s: seq<bv32>, i: nat): int
    requires i < TokenCount(s)
  {
    s[2 * i] as int
  }

  function MetadataOf(s: seq<bv32>, i: nat): bv32
    requires i < TokenCount(s)
  {
    s[2 * i + 1]
  }

  /** The upstream invariant of a line's token array: start offsets strictly increase. */
  predicate StartsIncreasing(s: seq<bv32>) {
    forall i, j :: 0 <= i < j < TokenCount(s) ==> StartOffset(s, i) < StartOffset(s, j)
  }

  // ------------------------------------------------------------ inflateArr

  /** `r` has one token per pair, with the pair's start offset and class name. */
  predicate IsInflation(s: seq<bv32>, r: seq<ViewLineToken>) {
    && |r| == TokenCount(s)
    && forall i :: 0 <= i < |r| ==>
         r[i] == ViewLineToken(StartOffset(s, i), ClassNameFromMetadata(MetadataOf(s, i)))
  }

  /** `inflateArr`: every pair becomes a token, in order. The array is only read. */
  method InflateArr(tokens: array<bv32>) returns (result: seq<ViewLineToken>)
    ensures |result| == tokens.Length / 2
    ensures IsInflation(tokens[..], result)
  {
    var tokenCount := tokens.Length / 2;
    result := [];
    for i := 0 to tokenCount
      invariant |result| == i
      invariant forall k :: 0 <= k < i ==>
        result[k] == ViewLineToken(StartOffset(tokens[..], k), ClassNameFromMetadata(MetadataOf(tokens[..], k)))
    {
      var startOffset := tokens[2 * i];
      var metadata := tokens[2 * i + 1];
      result := result + [ViewLineToken(startOffset as int, ClassNameFromMetadata(metadata))];
    }
  }

  // ------------------------------------------------------------ findIndexInSegmentsArray

  /**
   * Reference definition of the floor index, by a linear scan from the end:
   * the last segment j in [1, n) whose start is at most `desired`, or 0 when
   * there is none.
   */
  function LastStartAtMost(s: seq<bv32>, desired: int, n: nat): (r: nat)
    requires n <= TokenCount(s)
    ensures r == 0 || (r < n && StartOffset(s, r) <= desired)
    ensures forall j :: r < j < n ==> StartOffset(s, j) > desired
  {
    if n <= 1 then 0
    else if StartOffset(s, n - 1) <= desired then n - 1
    else LastStartAtMost(s, desired, n - 1)
  }

  function FloorIndex(s: seq<bv32>, desired: int): nat {
    LastStartAtMost(s, desired, TokenCount(s))
  }

  /**
   * What the binary search establishes about its answer `r`, sorted input or
   * not: `r` is a segment, it is 0 or starts at most at `desired`, and it is
   * the last segment or its successor starts after `desired`.
   */
  predicate IsFloorCandidate(s: seq<bv32>, desired: int, r: nat) {
    && r < TokenCount(s)
    && (r == 0 || StartOffset(s, r) <= desired)
    && (r + 1 == TokenCount(s) || StartOffset(s, r + 1) > desired)
  }

  /** On a sorted array the floor candidate is unique: it is the floor index. */
  lemma FloorCandidateIsFloorIndex(s: seq<bv32>, desired: int, r: nat)
    requires StartsIncreasing(s) && IsFloorCandidate(s, desired, r)
    ensures FloorIndex(s, desired) == r
  {
  }

  /** Math.ceil(n / 2) for a non-negative integer n. */
  function CeilHalf(n: nat): (h: nat)
    ensures n <= 2 * h <= n + 1
  {
    (n + 1) / 2
  }

  /**
   * `findIndexInSegmentsArray`: bisection over [low, high] with a
   * ceiling-biased midpoint. Since low < mid <= high, each step shrinks
   * high - low, which bounds the loop.
   */
  method FindIndexInSegmentsArray(tokens: array<bv32>, desiredIndex: int) returns (index: nat)
    ensures tokens.Length < 2 ==> index == 0
    ensures tokens.Length >= 2 ==> IsFloorCandidate(tokens[..], desiredIndex, index)
    ensures StartsIncreasing(tokens[..]) ==> index == FloorIndex(tokens[..], desiredIndex)
  {
    ghost var s := tokens[..];
    ghost var n := TokenCount(s);
    var low := 0;
    var high := tokens.Length / 2 - 1;
    while low < high
      invariant 0 <= low
      invariant if n == 0 then low == 0 && high == -1 else low <= high < n
      invariant low == 0 || StartOffset(s, low) <= desiredIndex
      invariant high == n - 1 || StartOffset(s, high + 1) > desiredIndex
      decreases high - low
    {
      var mid := low + CeilHalf(high - low);
      assert low < mid <= high;
      var value := tokens[2 * mid];
      if value as int > desiredIndex {
        high := mid - 1;
      } else {
        low := mid;
      }
    }
    index := low;
    if StartsIncreasing(s) && n > 0 {
      FloorCandidateIsFloorIndex(s, desiredIndex, index);
    }
  }

  /** The floor index is monotone in the searched offset. */
  lemma FloorIndexMonotone(s: seq<bv32>, a: int, b: int)
    requires a <= b
    ensures FloorIndex(s, a) <= FloorIndex(s, b)
  {
  }

  /** An offset before the first segment's start gives 0 on a sorted array. */
  lemma FloorIndexBeforeFirst(s: seq<bv32>, desired: int)
    requires StartsIncreasing(s) && TokenCount(s) >= 1 && desired < StartOffset(s, 0)
    ensures FloorIndex(s, desired) == 0
  {
  }

  /** An offset at or past the last segment's start gives the last segment. */
  lemma FloorIndexPastLast(s: seq<bv32>, desired: int)
    requires TokenCount(s) >= 1 && StartOffset(s, TokenCount(s) - 1) <= desired
    ensures FloorIndex(s, desired) == TokenCount(s) - 1
  {
  }

  // ------------------------------------------------------------ sliceAndInflate

  /**
   * `r` is the window of segment `index` onwards: a first token at offset 0
   * with the class of segment `index`, then segments index+1, index+2, ... in
   * order, each shifted by deltaStartIndex - startOffset, up to (excluding)
   * the first segment that starts at or after `endOffset`.
   */
  predicate IsSlice(s: seq<bv32>, index: nat, startOffset: int, endOffset: int, deltaStartIndex: int,
                    r: seq<ViewLineToken>)
    requires index < TokenCount(s)
  {
    && 1 <= |r| && index + |r| <= TokenCount(s)
    && r[0] == ViewLineToken(0, ClassNameFromMetadata(MetadataOf(s, index)))
    && (forall j :: index < j < index + |r| ==>
          && StartOffset(s, j) < endOffset
          && r[j - index] == ViewLineToken(StartOffset(s, j) - startOffset + deltaStartIndex,
                                           ClassNameFromMetadata(MetadataOf(s, j))))
    && (index + |r| == TokenCount(s) || StartOffset(s, index + |r|) >= endOffset)
  }

  /**
   * `sliceAndInflate`: the window starting at the segment the search finds
   * for `startOffset`. On a sorted array that segment is the floor index; on
   * any array it is a floor candidate.
   */
  method SliceAndInflate(tokens: array<bv32>, startOffset: int, endOffset: int, deltaStartIndex: int)
    returns (result: seq<ViewLineToken>)
    requires tokens.Length >= 2
    ensures StartsIncreasing(tokens[..]) ==>
      IsSlice(tokens[..], FloorIndex(tokens[..], startOffset), startOffset, endOffset, deltaStartIndex, result)
    ensures exists index :: IsFloorCandidate(tokens[..], startOffset, index)
                            && IsSlice(tokens[..], index, startOffset, endOffset, deltaStartIndex, result)
  {
    ghost var s := tokens[..];
    var index := FindIndexInSegmentsArray(tokens, startOffset);
    result := [ViewLineToken(0, ClassNameFromMetadata(tokens[2 * index + 1]))];
    var len := tokens.Length / 2;
    var i := index + 1;
    while i < len
      invariant index + 1 <= i <= len
      invariant |result| == i - index
      invariant result[0] == ViewLineToken(0, ClassNameFromMetadata(MetadataOf(s, index)))
      invariant forall j :: index < j < i ==>
        && StartOffset(s, j) < endOffset
        && result[j - index] == ViewLineToken(StartOffset(s, j) - startOffset + deltaStartIndex,
                                              ClassNameFromMetadata(MetadataOf(s, j)))
    {
      var originalStartOffset := tokens[2 * i];
      if originalStartOffset as int >= endOffset {
        break;
      }
      var newStartOffset := originalStartOffset as int - startOffset + deltaStartIndex;
      var metadata := tokens[2 * i + 1];
      result := result + [ViewLineToken(newStartOffset, ClassNameFromMetadata(metadata))];
      i := i + 1;
    }
    assert IsFloorCandidate(s, startOffset, index) && IsSlice(s, index, startOffset, endOffset, deltaStartIndex, result);
  }

  /** The window's contents are fixed by the array, the segment and the three offsets. */
  lemma SliceIsDetermined(s: seq<bv32>, index: nat, startOffset: int, endOffset: int, deltaStartIndex: int,
                          r: seq<ViewLineToken>, r': seq<ViewLineToken>)
    requires index < TokenCount(s)
    requires IsSlice(s, index, startOffset, endOffset, deltaStartIndex, r)
    requires IsSlice(s, index, startOffset, endOffset, deltaStartIndex, r')
    ensures r == r'
  {
    assert |r| == |r'|;
    forall k | 1 <= k < |r|
      ensures r[k] == r'[k]
    {
      var j := index + k;
      assert index < j < index + |r| && j - index == k;
      assert StartOffset(s, j) < endOffset;
      assert r[j - index] == ViewLineToken(StartOffset(s, j) - startOffset + deltaStartIndex,
                                           ClassNameFromMetadata(MetadataOf(s, j)));
      assert r'[j - index] == ViewLineToken(StartOffset(s, j) - startOffset + deltaStartIndex,
                                           ClassNameFromMetadata(MetadataOf(s, j)));
    }
  }

  /**
   * On a sorted array every token after the first lies beyond deltaStartIndex
   * and the offsets strictly increase; with deltaStartIndex >= 0 the whole
   * window, its first token at 0 included, is strictly increasing.
   */
  lemma SliceOffsetsIncrease(s: seq<bv32>, index: nat, startOffset: int, endOffset: int, deltaStartIndex: int,
                             r: seq<ViewLineToken>)
    requires StartsIncreasing(s) && IsFloorCandidate(s, startOffset, index)
    requires IsSlice(s, index, startOffset, endOffset, deltaStartIndex, r)
    ensures forall k :: 1 <= k < |r| ==> r[k].startIndex > deltaStartIndex
    ensures forall k, l :: 1 <= k < l < |r| ==> r[k].startIndex < r[l].startIndex
    ensures deltaStartIndex >= 0 ==> forall k, l :: 0 <= k < l < |r| ==> r[k].startIndex < r[l].startIndex
  {
    forall k | 1 <= k < |r|
      ensures r[k].startIndex > deltaStartIndex
    {
      assert index < index + k < index + |r|;
      assert StartOffset(s, index + 1) <= StartOffset(s, index + k);
    }
    forall k, l | 1 <= k < l < |r|
      ensures r[k].startIndex < r[l].startIndex
    {
      assert index < index + k < index + |r| && index < index + l < index + |r|;
      assert StartOffset(s, index + k) < StartOffset(s, index + l);
    }
  }

  /**
   * Slicing a whole line (its first start is 0, the window starts at 0, ends
   * after every start, with no shift) gives the same tokens as inflating it.
   */
  lemma WholeLineSliceIsInflation(s: seq<bv32>, index: nat, endOffset: int, r: seq<ViewLineToken>)
    requires StartsIncreasing(s) && TokenCount(s) >= 1 && StartOffset(s, 0) == 0
    requires forall j :: 0 <= j < TokenCount(s) ==> StartOffset(s, j) < endOffset
    requires IsFloorCandidate(s, 0, index)
    requires IsSlice(s, index, 0, endOffset, 0, r)
    ensures IsInflation(s, r)
  {
  }

  /**
   * The window [3, 8) of the line with segments at 0, 5 and 10 (metadata a,
   * b, c) is a token at 0 styled as a and one at 2 styled as b.
   */
  lemma SliceExample(a: bv32, b: bv32, c: bv32, index: nat, r: seq<ViewLineToken>)
    requires IsFloorCandidate([0, a, 5, b, 10, c], 3, index)
    requires IsSlice([0, a, 5, b, 10, c], index, 3, 8, 0, r)
    ensures r == [ViewLineToken(0, ClassNameFromMetadata(a)), ViewLineToken(2, ClassNameFromMetadata(b))]
  {
    var s: seq<bv32> := [0, a, 5, b, 10, c];
    assert StartOffset(s, 1) == 5 && StartOffset(s, 2) == 10;
    assert index == 0;
    assert |r| == 2;
  }
}
