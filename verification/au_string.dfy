/**
 `StringView` and the small-string-optimised `String` of libauxid
 (`libauxid/include/auxid/containers/string.hpp`).

 Text is a sequence of bytes. A view is just its bytes; a `String` is its
 bytes plus the storage mode (inline or on the heap) and the capacity that
 mode gives. Allocation is abstract: `reserve` yields a long string whether
 the allocator grew the block in place or copied it.
 */
module AuString {
  import opened Common

  type Bytes = seq<u8>

  // ---------------------------------------------------------------------------
  // internal::compare
  // ---------------------------------------------------------------------------

  /**
   `memcmp` on the first `n` bytes, reduced to its sign (-1, 0 or 1); bytes
   compare as unsigned. `n == 0` gives 0 without looking at either side.
   */
  function Compare(a: Bytes, b: Bytes, n: nat): (r: int)
    requires n <= |a| && n <= |b|
    ensures -1 <= r <= 1
    ensures r == 0 <==> a[..n] == b[..n]
    decreases n
  {
    if n == 0 then 0
    else if a[0] < b[0] then -1
    else if a[0] > b[0] then 1
    else
      var r := Compare(a[1..], b[1..], n - 1);
      assert a[..n] == [a[0]] + a[1..][..n - 1];
      assert b[..n] == [b[0]] + b[1..][..n - 1];
      r
  }

  /** Swapping the operands negates the comparison. */
  lemma {:induction false} CompareAntisymmetric(a: Bytes, b: Bytes, n: nat)
    requires n <= |a| && n <= |b|
    ensures Compare(b, a, n) == -Compare(a, b, n)
    decreases n
  {
    if n > 0 && a[0] == b[0] {
      CompareAntisymmetric(a[1..], b[1..], n - 1);
    }
  }

  /** The sign is decided by the first differing byte. */
  lemma {:induction false} CompareFirstDifference(a: Bytes, b: Bytes, n: nat, k: nat)
    requires k < n <= |a| && n <= |b|
    requires a[..k] == b[..k] && a[k] != b[k]
    ensures Compare(a, b, n) == (if a[k] < b[k] then -1 else 1)
    decreases k
  {
    if k > 0 {
      assert a[0] == a[..k][0] && b[0] == b[..k][0];
      assert a[1..][..k - 1] == a[..k][1..] && b[1..][..k - 1] == b[..k][1..];
      CompareFirstDifference(a[1..], b[1..], n - 1, k - 1);
    }
  }

  // ---------------------------------------------------------------------------
  // internal::search_substring
  // ---------------------------------------------------------------------------

  /**
   The least match at or after `i`, or `NPOS`. A match needs the whole
   needle inside the haystack.
   */
  function SearchFrom(h: Bytes, needle: Bytes, i: nat): (r: nat)
    requires |h| < NPOS
    ensures r == NPOS || (i <= r && OccursAt(h, needle, r))
    ensures forall j :: i <= j && (r == NPOS || j < r) ==> !OccursAt(h, needle, j)
    decreases |h| + 1 - i
  {
    if i + |needle| > |h| then NPOS
    else if h[i..i + |needle|] == needle then i
    else SearchFrom(h, needle, i + 1)
  }

  /**
   `search_substring` with the guard it needs: an empty needle is found at
   `pos` when `pos <= |h|`; otherwise the least match in `[pos, |h| - |needle|]`,
   and `NPOS` when `pos >= |h|` or the needle is longer than what is left.
   */
  function Search(h: Bytes, needle: Bytes, pos: nat): (r: nat)
    requires |h| < NPOS
    ensures |needle| == 0 ==> r == (if pos <= |h| then pos else NPOS)
    ensures |needle| > 0 && pos >= |h| ==> r == NPOS
    ensures |needle| > 0 && r != NPOS ==> pos <= r && OccursAt(h, needle, r)
    ensures |needle| > 0 ==> forall j :: pos <= j && (r == NPOS || j < r) ==> !OccursAt(h, needle, j)
  {
    if |needle| == 0 then (if pos <= |h| then pos else NPOS)
    else if pos >= |h| then NPOS
    else SearchFrom(h, needle, pos)
  }

  /** The search loop, first byte then `compare` on the rest, with the length check before the subtraction. */
  method SearchSubstring(h: Bytes, needle: Bytes, pos: nat) returns (r: nat)
    requires |h| < NPOS
    ensures r == Search(h, needle, pos)
  {
    if |needle| == 0 {
      return if pos <= |h| then pos else NPOS;
    }
    if pos >= |h| || |needle| > |h| {
      return NPOS;
    }
    var last := |h| - |needle|;
    if pos > last {
      return NPOS;
    }
    var i := pos;
    while i <= last
      invariant pos <= i <= last + 1
      invariant SearchFrom(h, needle, pos) == SearchFrom(h, needle, i)
      decreases last + 1 - i
    {
      if h[i] == needle[0] {
        if Compare(h[i + 1..], needle[1..], |needle| - 1) == 0 {
          assert h[i..i + |needle|] == [h[i]] + h[i + 1..][..|needle| - 1];
          assert needle == [needle[0]] + needle[1..][..|needle| - 1];
          return i;
        }
        assert h[i..i + |needle|][1..] == h[i + 1..][..|needle| - 1];
      }
      i := i + 1;
    }
    return NPOS;
  }

  /** What the loop as written does: return an index, or read outside the haystack. */
  datatype Scan = Index(i: nat) | ReadsPastEnd

  /**
   `search_substring` exactly as written: `last_possible` is `h_len - n_len`
   in 64-bit unsigned arithmetic, so a needle longer than the haystack makes
   it wrap to a huge value and the loop walks off the end.
   */
  function SearchAsWritten(h: Bytes, needle: Bytes, pos: nat): (r: Scan)
    requires |h| < NPOS && |needle| < U64_MOD && pos < U64_MOD
    ensures r.Index? && r.i != NPOS ==> pos <= r.i && OccursAt(h, needle, r.i)
    ensures pos >= |h| && |needle| > 0 ==> r == Index(NPOS)
  {
    if |needle| == 0 then Index(if pos <= |h| then pos else NPOS)
    else if pos >= |h| then Index(NPOS)
    else
      var last := (|h| - |needle|) % U64_MOD;
      if pos > last then Index(NPOS) else ScanAsWritten(h, needle, pos, last)
  }

  /**
   The scan loop from index `i` with the bound `last`: whatever index it
   returns other than `NPOS` is a whole-needle match within the bound.
   */
  function ScanAsWritten(h: Bytes, needle: Bytes, i: nat, last: nat): (r: Scan)
    requires |needle| > 0
    ensures r.Index? && r.i != NPOS ==> i <= r.i <= last && OccursAt(h, needle, r.i)
    decreases last + 1 - i
  {
    if i > last then Index(NPOS)
    else if i >= |h| then ReadsPastEnd
    else if h[i] != needle[0] then ScanAsWritten(h, needle, i + 1, last)
    else if i + |needle| > |h| then ReadsPastEnd
    else if h[i + 1..i + |needle|] == needle[1..] then
      assert h[i..i + |needle|] == [h[i]] + h[i + 1..i + |needle|];
      assert needle == [needle[0]] + needle[1..];
      Index(i)
    else ScanAsWritten(h, needle, i + 1, last)
  }

  /** The one-byte haystack "a" searched for "ab" from 0 reads past the haystack. */
  lemma SearchAsWrittenOverrunExample()
    ensures SearchAsWritten([97], [97, 98], 0) == ReadsPastEnd
  {
    assert (1 - 2) % U64_MOD == NPOS;
  }

  /** Whenever the needle is longer than the haystack and `pos` is inside it, the loop as written reads past the end. */
  lemma {:induction false} SearchAsWrittenOverruns(h: Bytes, needle: Bytes, pos: nat)
    requires |h| < NPOS && |needle| < U64_MOD && pos < U64_MOD
    requires |needle| > |h| && pos < |h|
    ensures SearchAsWritten(h, needle, pos) == ReadsPastEnd
  {
    var last := (|h| - |needle|) % U64_MOD;
    assert last == U64_MOD + |h| - |needle|;
    ScanOverruns(h, needle, pos, last);
  }

  lemma {:induction false} ScanOverruns(h: Bytes, needle: Bytes, i: nat, last: nat)
    requires |needle| > |h| && i <= |h| <= last
    ensures ScanAsWritten(h, needle, i, last) == ReadsPastEnd
    decreases |h| - i
  {
    if i < |h| && h[i] != needle[0] {
      ScanOverruns(h, needle, i + 1, last);
    }
  }

  /** When the needle fits, the code as written and the guarded search agree. */
  lemma {:induction false} SearchAsWrittenAgrees(h: Bytes, needle: Bytes, pos: nat)
    requires |h| < NPOS && |needle| < U64_MOD && pos < U64_MOD
    requires |needle| <= |h|
    ensures SearchAsWritten(h, needle, pos) == Index(Search(h, needle, pos))
  {
    if |needle| > 0 && pos < |h| {
      var last := |h| - |needle|;
      assert (|h| - |needle|) % U64_MOD == last;
      if pos <= last {
        ScanAgrees(h, needle, pos, last);
      }
    }
  }

  lemma {:induction false} ScanAgrees(h: Bytes, needle: Bytes, i: nat, last: nat)
    requires |h| < NPOS && 0 < |needle| <= |h| && last == |h| - |needle| && i <= last + 1
    ensures ScanAsWritten(h, needle, i, last) == Index(SearchFrom(h, needle, i))
    decreases last + 1 - i
  {
    if i <= last {
      assert h[i..i + |needle|] == [h[i]] + h[i + 1..i + |needle|];
      assert needle == [needle[0]] + needle[1..];
      ScanAgrees(h, needle, i + 1, last);
    }
  }

  // ---------------------------------------------------------------------------
  // StringView
  // ---------------------------------------------------------------------------

  /**
   `StringView::find(char, pos)`: `NPOS` when `pos` is at or past the end,
   else the first index at or after `pos` holding `c`, else `NPOS`.
   */
  function FindChar(s: Bytes, c: u8, pos: nat): (r: nat)
    requires |s| < NPOS
    ensures r == NPOS || (pos <= r < |s| && s[r] == c)
    ensures forall j :: pos <= j < |s| && (r == NPOS || j < r) ==> s[j] != c
    decreases |s| - pos
  {
    if pos >= |s| then NPOS
    else if s[pos] == c then pos
    else FindChar(s, c, pos + 1)
  }

  /** Finding a byte is finding the one-byte needle. */
  lemma {:induction false} FindCharIsSearch(s: Bytes, c: u8, pos: nat)
    requires |s| < NPOS
    ensures FindChar(s, c, pos) == Search(s, [c], pos)
    decreases |s| - pos
  {
    if pos < |s| {
      assert s[pos..pos + 1] == [s[pos]];
      if s[pos] != c {
        FindCharIsSearch(s, c, pos + 1);
        if pos + 1 >= |s| {
          assert SearchFrom(s, [c], pos + 1) == NPOS;
        }
      }
    }
  }

  /** `StringView::operator==`: the lengths first, then `compare` on the bytes. */
  function ViewEquals(a: Bytes, b: Bytes): (r: bool)
    ensures r <==> a == b
  {
    if |a| != |b| then false else Compare(a, b, |a|) == 0
  }

  /** The bytes of a C string: everything before the first NUL (`StringView(const char*)`, `strlen`). */
  function CString(mem: Bytes): (r: Bytes)
    ensures StartsWith(mem, r)
    ensures forall i :: 0 <= i < |r| ==> r[i] != 0
    ensures |r| < |mem| ==> mem[|r|] == 0
    decreases |mem|
  {
    if |mem| == 0 || mem[0] == 0 then []
    else
      var t := CString(mem[1..]);
      assert mem[..1 + |t|] == [mem[0]] + mem[1..][..|t|];
      [mem[0]] + t
  }

  // ---------------------------------------------------------------------------
  // hash_string_view: 64-bit FNV-1a
  // ---------------------------------------------------------------------------

  const FNV_OFFSET_BASIS: bv64 := 14695981039346656037
  const FNV_PRIME: bv64 := 1099511628211

  /** One FNV-1a round: xor the byte in, then multiply modulo 2^64. */
  function FnvStep(h: bv64, b: u8): bv64 {
    (h ^ (b as bv64)) * FNV_PRIME
  }

  /** Continue hashing `s` from the running value `h`, front to back. */
  function FnvFrom(h: bv64, s: Bytes): bv64
    decreases |s|
  {
    if |s| == 0 then h else FnvFrom(FnvStep(h, s[0]), s[1..])
  }

  /** One more byte at the end of the input is one more round at the end of the fold. */
  lemma {:induction false} FnvFromSnoc(h: bv64, s: Bytes, b: u8)
    ensures FnvFrom(h, s + [b]) == FnvStep(FnvFrom(h, s), b)
    decreases |s|
  {
    if |s| > 0 {
      assert (s + [b])[1..] == s[1..] + [b];
      FnvFromSnoc(FnvStep(h, s[0]), s[1..], b);
    } else {
      assert (s + [b])[1..] == [];
    }
  }

  /**
   FNV-1a of `s`, defined on the last byte (the hash of a prefix, one more
   round). It is the front-to-back fold from the offset basis.
   */
  function Fnv1a(s: Bytes): (r: bv64)
    ensures r == FnvFrom(FNV_OFFSET_BASIS, s)
    decreases |s|
  {
    if |s| == 0 then FNV_OFFSET_BASIS
    else
      var init := s[..|s| - 1];
      var prev := Fnv1a(init);
      FnvFromSnoc(FNV_OFFSET_BASIS, init, s[|s| - 1]);
      assert init + [s[|s| - 1]] == s;
      FnvStep(prev, s[|s| - 1])
  }

  /** `hash_string_view`'s loop. */
  method HashStringView(s: Bytes) returns (hash: bv64)
    ensures hash == Fnv1a(s)
    ensures |s| == 0 ==> hash == FNV_OFFSET_BASIS
  {
    hash := FNV_OFFSET_BASIS;
    var i := 0;
    while i < |s|
      invariant 0 <= i <= |s|
      invariant hash == Fnv1a(s[..i])
    {
      assert s[..i + 1][..i] == s[..i];
      hash := FnvStep(hash, s[i]);
      i := i + 1;
    }
    assert s[..|s|] == s;
  }

  /** Hashing `a + b` is hashing `a`, then continuing with `b`. */
  lemma {:induction false} FnvConcat(a: Bytes, b: Bytes)
    ensures Fnv1a(a + b) == FnvFrom(Fnv1a(a), b)
    decreases |b|
  {
    if |b| > 0 {
      var a' := a + [b[0]];
      assert a' + b[1..] == a + b;
      assert a'[..|a'| - 1] == a;
      FnvConcat(a', b[1..]);
    } else {
      assert a + b == a;
    }
  }

  // ---------------------------------------------------------------------------
  // String
  // ---------------------------------------------------------------------------

  /** `SSO_CAPACITY`: three words less the size byte. */
  const SSO_CAPACITY: nat := PTR_SIZE * 3 - 1

  /**
   A `String`: inline (the flag bit of the first byte clear) holding at most
   `SSO_CAPACITY` bytes, or on the heap with a recorded capacity. The NUL
   terminator is implicit.
   */
  datatype Str = Short(bytes: Bytes) | Long(bytes: Bytes, cap: nat)

  function Capacity(s: Str): nat {
    if s.Short? then SSO_CAPACITY else s.cap
  }

  /** Size within capacity. */
  predicate Valid(s: Str) {
    |s.bytes| <= Capacity(s)
  }

  /** `String()`: empty and inline. */
  const EMPTY: Str := Short([])

  /** `reserve(n)`: no change when `n` fits; otherwise a heap block of capacity exactly `n` with the same bytes. */
  function Reserve(s: Str, n: nat): (r: Str)
    requires Valid(s)
    ensures Valid(r) && r.bytes == s.bytes
    ensures n <= Capacity(s) ==> r == s
    ensures n > Capacity(s) ==> r.Long? && r.cap == n
  {
    if n <= Capacity(s) then s else Long(s.bytes, n)
  }

  /** `assign(sv)`: reserve when `sv` does not fit, then overwrite; the storage mode is kept otherwise. */
  function Assign(s: Str, sv: Bytes): (r: Str)
    requires Valid(s)
    ensures Valid(r) && r.bytes == sv
    ensures |sv| <= Capacity(s) ==> r.Short? == s.Short? && Capacity(r) == Capacity(s)
    ensures |sv| > Capacity(s) ==> r.Long? && r.cap == |sv|
  {
    var t := if |sv| > Capacity(s) then Reserve(s, |sv|) else s;
    if t.Short? then Short(sv) else Long(sv, t.cap)
  }

  /** `String(StringView)` and `String(const char*)`: assignment into an empty string. */
  function FromView(sv: Bytes): (r: Str)
    ensures Valid(r) && r.bytes == sv
    ensures r.Short? <==> |sv| <= SSO_CAPACITY
  {
    Assign(EMPTY, sv)
  }

  /** The capacity `append` asks for when `required` does not fit: double, or `required` if that is more. */
  function GrowTo(cap: nat, required: nat): (r: nat)
    ensures r >= required && r >= 2 * cap
    ensures r == required || r == 2 * cap
  {
    if cap * 2 < required then required else cap * 2
  }

  /**
   `append(sv)`: nothing for an empty view; otherwise grow when the result
   would not fit, then copy `sv` after the current bytes.
   */
  function Append(s: Str, sv: Bytes): (r: Str)
    requires Valid(s)
    ensures Valid(r) && r.bytes == s.bytes + sv
    ensures Capacity(r) >= Capacity(s)
    ensures |sv| == 0 ==> r == s
    ensures |s.bytes| + |sv| <= Capacity(s) ==> Capacity(r) == Capacity(s) && r.Short? == s.Short?
    ensures |s.bytes| + |sv| > Capacity(s) ==>
      r.Long? && r.cap >= 2 * Capacity(s) && r.cap >= |s.bytes| + |sv|
      && (r.cap == 2 * Capacity(s) || r.cap == |s.bytes| + |sv|)
  {
    if |sv| == 0 then s
    else
      var required := |s.bytes| + |sv|;
      var t := if required > Capacity(s) then Reserve(s, GrowTo(Capacity(s), required)) else s;
      if t.Short? then Short(t.bytes + sv) else Long(t.bytes + sv, t.cap)
  }

  /** `push(c)` / `push_back(c)`: append the one-byte view. */
  function Push(s: Str, c: u8): (r: Str)
    requires Valid(s)
    ensures Valid(r) && r.bytes == s.bytes + [c]
  {
    Append(s, [c])
  }

  /** `pop()` / `pop_back()`: drop the last byte, or do nothing on an empty string. Capacity stays. */
  function Pop(s: Str): (r: Str)
    requires Valid(s)
    ensures Valid(r) && Capacity(r) == Capacity(s) && r.Short? == s.Short?
    ensures |s.bytes| > 0 ==> r.bytes == s.bytes[..|s.bytes| - 1]
    ensures |s.bytes| == 0 ==> r == s
  {
    if |s.bytes| == 0 then s
    else if s.Short? then Short(s.bytes[..|s.bytes| - 1])
    else Long(s.bytes[..|s.bytes| - 1], s.cap)
  }

  /** Pushing then popping gives back the same string, capacity included unless the push had to grow. */
  lemma {:induction false} PushPop(s: Str, c: u8)
    requires Valid(s)
    ensures Pop(Push(s, c)).bytes == s.bytes
    ensures |s.bytes| < Capacity(s) ==> Pop(Push(s, c)) == s
  {
    var p := Push(s, c);
    assert p.bytes[..|p.bytes| - 1] == s.bytes;
  }

  /** `operator==` on strings: equal sizes and equal bytes, whatever the storage mode. */
  function Equals(a: Str, b: Str): (r: bool)
    ensures r <==> a.bytes == b.bytes
  {
    |a.bytes| == |b.bytes| && ViewEquals(a.bytes, b.bytes)
  }

  /** `lhs + rhs` for any mix of strings and views: reserve the total, append both. */
  function Concat(lhs: Bytes, rhs: Bytes): (r: Str)
    ensures Valid(r) && r.bytes == lhs + rhs
    ensures r.Short? <==> |lhs + rhs| <= SSO_CAPACITY
    ensures r.Long? ==> r.cap == |lhs| + |rhs|
  {
    var t := Reserve(EMPTY, |lhs| + |rhs|);
    assert t.bytes + lhs == lhs;
    Append(Append(t, lhs), rhs)
  }

  /** `lhs + c`. */
  function ConcatChar(lhs: Bytes, c: u8): (r: Str)
    ensures Valid(r) && r.bytes == lhs + [c]
    ensures r.Long? ==> r.cap == |lhs| + 1
  {
    var t := Reserve(EMPTY, |lhs| + 1);
    assert t.bytes + lhs == lhs;
    Push(Append(t, lhs), c)
  }

  /** Appending is concatenation of contents: appending two views in turn is appending their concatenation. */
  lemma {:induction false} AppendAssociates(s: Str, a: Bytes, b: Bytes)
    requires Valid(s)
    ensures Append(Append(s, a), b).bytes == Append(s, a + b).bytes
  {
    assert s.bytes + a + b == s.bytes + (a + b);
  }

  /** Move construction: the target takes the representation, the source becomes the empty inline string. */
  function Move(source: Str): (r: (Str, Str))
    ensures r.0 == source && r.1 == EMPTY
  {
    (source, EMPTY)
  }

  /** Copy construction, copy assignment and `clone`: the bytes are assigned into the target. */
  lemma {:induction false} CopyKeepsBytes(target: Str, source: Str)
    requires Valid(target) && Valid(source)
    ensures Equals(Assign(target, source.bytes), source)
    ensures Equals(FromView(source.bytes), source)
  {
  }
}
