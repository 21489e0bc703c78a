/**
 Shared vocabulary of the model: machine-word bounds, powers of two, the
 outcome of an operation that may panic, and decimal rendering of numbers
 (what `printf("%u")` and `llvm::outs() << n` produce).
 */
module Common {

  const U16_MOD: nat := 0x1_0000
  const U32_MOD: nat := 0x1_0000_0000
  const U64_MOD: nat := 0x1_0000_0000_0000_0000

  /** `sizeof(void*)` and `sizeof(usize)` on the 64-bit targets the library is built for. */
  const PTR_SIZE: nat := 8

  /** `static_cast<usize>(-1)`, the `npos` sentinel. */
  const NPOS: nat := U64_MOD - 1

  /** A byte as the library sees it after `static_cast<u8>`. */
  newtype u8 = x: int | 0 <= x < 256

  ghost predicate IsUsize(n: int) {
    0 <= n < U64_MOD
  }

  /** A value below the modulus is its own remainder. */
  lemma SmallModulo(a: nat, m: nat)
    requires a < m
    ensures a % m == a
  {
  }

  /** A value between `w` and `2w` wraps exactly once. */
  lemma ModOnce(s: nat, w: nat)
    requires 0 < w <= s < 2 * w
    ensures s % w == s - w
  {
    var q := s / w;
    assert s == w * q + s % w && 0 <= s % w < w;
    MulBounds(w, q);
  }

  /** The products `w * q` that the quotient in `ModOnce` can take, case by case. */
  lemma MulBounds(w: nat, q: int)
    requires 0 < w
    ensures q <= 0 ==> w * q <= 0
    ensures q == 1 ==> w * q == w
    ensures q >= 2 ==> w * q >= 2 * w
  {
    if q >= 2 {
      assert w * q == w * 2 + w * (q - 2);
    }
  }

  /** True iff `n` is 2^k for some k >= 0. */
  predicate IsPow2(n: nat)
    decreases n
  {
    n == 1 || (n >= 2 && n % 2 == 0 && IsPow2(n / 2))
  }

  lemma {:induction false} Pow2Double(n: nat)
    requires IsPow2(n)
    ensures IsPow2(2 * n)
  {
    assert (2 * n) / 2 == n;
  }

  lemma {:induction false} Pow2AtLeastOne(n: nat)
    requires IsPow2(n)
    ensures n >= 1
  {
  }

  /**
   The result of an operation that either returns or ends the program through
   `panic()` (whose handler prints and never returns).
   */
  datatype Checked<T> = Returned(value: T) | Panicked(message: string)

  /** Decimal rendering of a natural number, most significant digit first. */
  function Decimal(n: nat): (s: string)
    ensures |s| >= 1
    ensures forall i :: 0 <= i < |s| ==> '0' <= s[i] <= '9'
    decreases n
  {
    if n < 10 then [DigitChar(n)] else Decimal(n / 10) + [DigitChar(n % 10)]
  }

  function DigitChar(d: nat): (c: char)
    requires d < 10
    ensures '0' <= c <= '9'
  {
    ['0', '1', '2', '3', '4', '5', '6', '7', '8', '9'][d]
  }

  /** Number of occurrences of `c` in `s`. */
  function CountChar(s: string, c: char): nat
    decreases |s|
  {
    if |s| == 0 then 0 else (if s[0] == c then 1 else 0) + CountChar(s[1..], c)
  }

  lemma {:induction false} CountCharAppend(a: string, b: string, c: char)
    ensures CountChar(a + b, c) == CountChar(a, c) + CountChar(b, c)
    decreases |a|
  {
    if |a| == 0 {
      assert a + b == b;
    } else {
      assert (a + b)[1..] == a[1..] + b;
      CountCharAppend(a[1..], b, c);
    }
  }

  lemma {:induction false} CountCharAbsent(s: string, c: char)
    requires forall i :: 0 <= i < |s| ==> s[i] != c
    ensures CountChar(s, c) == 0
    decreases |s|
  {
    if |s| > 0 {
      CountCharAbsent(s[1..], c);
    }
  }

  /** `s` starts with `p` (`StringRef::starts_with`). */
  predicate StartsWith<T(==)>(s: seq<T>, p: seq<T>) {
    |p| <= |s| && s[..|p|] == p
  }

  /** A mismatch at position `i` (or `s` ending before it) rules out the prefix. */
  lemma NotStartsWith<T>(s: seq<T>, p: seq<T>, i: nat)
    requires i < |p| && (i >= |s| || s[i] != p[i])
    ensures !StartsWith(s, p)
  {
    if |p| <= |s| {
      assert s[..|p|][i] == s[i];
    }
  }

  lemma StartsWithConcat<T>(a: seq<T>, b: seq<T>)
    ensures StartsWith(a + b, a)
  {
    assert (a + b)[..|a|] == a;
  }

  /** A prefix of `s` is a prefix of anything that extends `s`. */
  lemma StartsWithExtend<T>(s: seq<T>, t: seq<T>, p: seq<T>)
    requires StartsWith(s, p)
    ensures StartsWith(s + t, p)
  {
    assert (s + t)[..|p|] == s[..|p|];
  }

  lemma EndsWithConcat<T>(a: seq<T>, b: seq<T>)
    ensures EndsWith(a + b, b)
  {
    assert (a + b)[|a|..] == b;
  }

  /** `s` ends with `p` (`StringRef::ends_with`). */
  predicate EndsWith<T(==)>(s: seq<T>, p: seq<T>) {
    |p| <= |s| && s[|s| - |p|..] == p
  }

  /** `t` occurs somewhere inside `s` (`StringRef::contains`). */
  predicate Occurs<T(==)>(s: seq<T>, t: seq<T>) {
    exists i :: 0 <= i <= |s| - |t| && OccursAt(s, t, i)
  }

  /** `t` occurs in `s` starting at index `i`. */
  predicate OccursAt<T(==)>(s: seq<T>, t: seq<T>, i: int) {
    0 <= i <= |s| - |t| && s[i..i + |t|] == t
  }
}
