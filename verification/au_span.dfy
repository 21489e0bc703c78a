/**
 `Span<T>` (`libauxid/include/auxid/containers/span.hpp`): a pointer and a
 length over someone else's elements. A span is modelled by the sequence of
 elements it covers; slicing gives the covered sub-sequence.

 The bounds checks exist only in debug builds, where a failed check panics
 with a fixed message; the model is the debug build (a release build would
 read outside the span instead).
 */
module AuSpan {
  import opened Common

  /** `size_bytes()` and `as_bytes().size()`: the element count times `sizeof(T)`. */
  function SizeBytes<T>(s: seq<T>, elemSize: nat): (r: nat)
    ensures elemSize > 0 ==> (r == 0 <==> Empty(s))
    ensures elemSize > 0 ==> r >= |s|
  {
    |s| * elemSize
  }

  /** `empty()`. */
  predicate Empty<T>(s: seq<T>) {
    |s| == 0
  }

  /** The byte size of a span is the sum of the byte sizes of any split of it. */
  lemma {:induction false} SizeBytesSplits<T>(s: seq<T>, n: nat, elemSize: nat)
    requires n <= |s|
    ensures SizeBytes(s, elemSize) == SizeBytes(s[..n], elemSize) + SizeBytes(s[n..], elemSize)
  {
    assert |s| * elemSize == n * elemSize + (|s| - n) * elemSize;
  }

  /** `operator[]`. */
  function Index<T>(s: seq<T>, i: nat): (r: Checked<T>)
    ensures r.Returned? <==> i < |s|
    ensures r.Returned? ==> r.value == s[i]
    ensures r.Panicked? ==> r.message == "Span index out of bounds"
  {
    if i >= |s| then Panicked("Span index out of bounds") else Returned(s[i])
  }

  /** `front()`. */
  function Front<T>(s: seq<T>): (r: Checked<T>)
    ensures r.Returned? <==> |s| > 0
    ensures r.Returned? ==> r == Index(s, 0)
  {
    if |s| == 0 then Panicked("Called front() on empty Span") else Returned(s[0])
  }

  /** `back()`. */
  function Back<T>(s: seq<T>): (r: Checked<T>)
    ensures r.Returned? <==> |s| > 0
    ensures r.Returned? ==> r == Index(s, |s| - 1)
  {
    if |s| == 0 then Panicked("Called back() on empty Span") else Returned(s[|s| - 1])
  }

  /** `first(count)`: the first `count` elements. */
  function First<T>(s: seq<T>, count: nat): (r: Checked<seq<T>>)
    ensures r.Returned? <==> count <= |s|
    ensures r.Returned? ==> |r.value| == count && s == r.value + s[count..]
  {
    if count > |s| then Panicked("Span::first() count > size") else Returned(s[..count])
  }

  /** `last(count)`: the last `count` elements, starting at `size - count`. */
  function Last<T>(s: seq<T>, count: nat): (r: Checked<seq<T>>)
    ensures r.Returned? <==> count <= |s|
    ensures r.Returned? ==> |r.value| == count && s == s[..|s| - count] + r.value
  {
    if count > |s| then Panicked("Span::last() count > size") else Returned(s[|s| - count..])
  }

  /**
   `subspan(offset, count)`: `count` elements from `offset`; `count == NPOS`
   (the default) means everything after `offset`.
   */
  function Subspan<T>(s: seq<T>, offset: nat, count: nat): (r: Checked<seq<T>>)
    ensures r.Returned? <==> offset <= |s| && (count == NPOS || count <= |s| - offset)
    ensures r.Returned? && count == NPOS ==> s == s[..offset] + r.value
    ensures r.Returned? && count != NPOS ==> |r.value| == count && s == s[..offset] + r.value + s[offset + count..]
  {
    if offset > |s| then Panicked("Span::subspan() offset > size")
    else
      var remain := |s| - offset;
      var n := if count == NPOS then remain else count;
      if n > remain then Panicked("Span::subspan() count > remaining")
      else
        assert s == s[..offset] + s[offset..offset + n] + s[offset + n..];
        Returned(s[offset..offset + n])
  }

  /** `first<Count>()`. */
  function FirstN<T>(s: seq<T>, count: nat): (r: Checked<seq<T>>)
    ensures r.Returned? <==> count <= |s|
    ensures r.Returned? ==> |r.value| == count && r.value <= s
  {
    if count > |s| then Panicked("Span::first<N>() count > size") else Returned(s[..count])
  }

  /** `last<Count>()`. */
  function LastN<T>(s: seq<T>, count: nat): (r: Checked<seq<T>>)
    ensures r.Returned? <==> count <= |s|
    ensures r.Returned? ==> |r.value| == count && forall i :: 0 <= i < count ==> r.value[i] == s[|s| - count + i]
  {
    if count > |s| then Panicked("Span::last<N>() count > size") else Returned(s[|s| - count..])
  }

  /** `subspan<Offset, Count>()`: the whole remainder when `Count` is left at its `NPOS` default. */
  function SubspanN<T>(s: seq<T>, offset: nat, count: nat): (r: Checked<seq<T>>)
    ensures r.Returned? <==> offset <= |s| && (count == NPOS || offset + count <= |s|)
    ensures r.Returned? ==> offset <= |s| && r.value <= s[offset..]
    ensures r.Returned? && count != NPOS ==> |r.value| == count
  {
    if offset > |s| then Panicked("Span::subspan<Offset, Count>() offset > size")
    else if count == NPOS then Returned(s[offset..])
    else if count > |s| - offset then Panicked("Span::subspan<Offset, Count>() count > remaining")
    else Returned(s[offset..offset + count])
  }

  /** The compile-time forms accept exactly what the run-time forms accept and return the same elements. */
  lemma {:induction false} TemplateFormsAgree<T>(s: seq<T>, offset: nat, count: nat)
    ensures FirstN(s, count).Returned? == First(s, count).Returned?
    ensures FirstN(s, count).Returned? ==> FirstN(s, count) == First(s, count)
    ensures LastN(s, count).Returned? == Last(s, count).Returned?
    ensures LastN(s, count).Returned? ==> LastN(s, count) == Last(s, count)
    ensures SubspanN(s, offset, count).Returned? == Subspan(s, offset, count).Returned?
    ensures SubspanN(s, offset, count).Returned? ==> SubspanN(s, offset, count) == Subspan(s, offset, count)
  {
    if offset <= |s| && count == NPOS {
      assert s[offset..offset + (|s| - offset)] == s[offset..];
    }
  }

  /** Taking the first `a` and then the last `b` of those is the sub-span at `a - b` of length `b`. */
  lemma {:induction false} FirstThenLast<T>(s: seq<T>, a: nat, b: nat)
    requires b <= a <= |s| && b != NPOS
    ensures First(s, a).Returned? && Last(First(s, a).value, b).Returned?
    ensures Last(First(s, a).value, b) == Subspan(s, a - b, b)
  {
    assert s[..a][a - b..] == s[a - b..a - b + b];
  }

  /** `first(n)` and `last(size - n)` split the span. */
  lemma {:induction false} FirstLastSplit<T>(s: seq<T>, n: nat)
    requires n <= |s|
    ensures First(s, n).value + Last(s, |s| - n).value == s
  {
    assert s[|s| - (|s| - n)..] == s[n..];
  }

  /** `operator==`: element-wise equality over equal lengths. */
  function Equals<T(==)>(a: seq<T>, b: seq<T>): (r: bool)
    ensures r <==> a == b
  {
    |a| == |b| && forall i :: 0 <= i < |a| ==> a[i] == b[i]
  }
}
