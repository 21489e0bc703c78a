/**
 The hashers and key equality used by the hash containers
 (`include/auxid/containers/hash_base.hpp`): a multiplicative hash for
 integers, FNV-1a for every string-like key, `operator==` as equality, and
 the `INDEX_INVALID` marker for an empty bucket.
 */
module HashBase {
  import opened Common
  import AuString

  /** `INDEX_INVALID`: `UINT32_MAX`, the bucket value meaning "no entry". */
  const INDEX_INVALID: nat := U32_MOD - 1

  /** The 64-bit golden-ratio multiplier. */
  const GOLDEN: nat := 11400714819323198485

  /** `t ^= t >> 32` on a 64-bit value: the high half passes through unchanged. */
  function FoldHigh(t: bv64): (r: bv64)
    ensures r >> 32 == t >> 32
  {
    assert (t ^ (t >> 32)) >> 32 == t >> 32;
    t ^ (t >> 32)
  }

  /** The product `x * GOLDEN` in the 64-bit size type, before the fold. */
  function Product(x: nat): (p: bv64)
    requires x < U64_MOD
  {
    ((x * GOLDEN) % U64_MOD) as bv64
  }

  /**
   The shared body of the integer hashes: multiply modulo 2^64, then fold the
   high half into the low half. The hash keeps the product's high half, and
   folding it once more gives the product back.
   */
  function MixU64(x: nat): (r: bv64)
    requires x < U64_MOD
    ensures r >> 32 == Product(x) >> 32
    ensures FoldHigh(r) == Product(x)
  {
    FoldHighInvolution(Product(x));
    FoldHigh(Product(x))
  }

  /** Folding twice gives the value back, and the high half is left as it was: the fold loses nothing. */
  lemma FoldHighInvolution(t: bv64)
    ensures FoldHigh(FoldHigh(t)) == t
    ensures FoldHigh(t) >> 32 == t >> 32
  {
    assert (t ^ (t >> 32)) >> 32 == t >> 32;
  }

  /** Different products give different hashes: the fold is one-to-one. */
  lemma {:induction false} FoldHighInjective(a: bv64, b: bv64)
    requires a != b
    ensures FoldHigh(a) != FoldHigh(b)
  {
    FoldHighInvolution(a);
    FoldHighInvolution(b);
  }

  /** `Hash<u64>`. */
  function HashU64(x: nat): (r: bv64)
    requires x < U64_MOD
    ensures r >> 32 == Product(x) >> 32
    ensures FoldHigh(r) == Product(x)
  {
    MixU64(x)
  }

  /** `Hash<u32>`: the value is widened to 64 bits first. */
  function HashU32(x: nat): (r: bv64)
    requires x < U32_MOD
    ensures r >> 32 == Product(x) >> 32
    ensures FoldHigh(r) == Product(x)
  {
    MixU64(x)
  }

  /** `static_cast<u64>` of an `i32`: sign extension, i.e. the value modulo 2^64. */
  function SignExtend(x: int): (r: nat)
    requires -0x8000_0000 <= x < 0x8000_0000
    ensures r < U64_MOD
    ensures x >= 0 ==> r == x
    ensures x < 0 ==> r == U64_MOD + x
  {
    if x >= 0 then x else U64_MOD + x
  }

  /** `Hash<i32>`. */
  function HashI32(x: int): (r: bv64)
    requires -0x8000_0000 <= x < 0x8000_0000
    ensures r >> 32 == Product(SignExtend(x)) >> 32
    ensures FoldHigh(r) == Product(SignExtend(x))
    ensures x >= 0 ==> r == HashU32(x)
  {
    MixU64(SignExtend(x))
  }

  /** The three integer hashes agree on the values they share. */
  lemma {:induction false} IntegerHashesAgree(x: nat)
    requires x < 0x8000_0000
    ensures HashU32(x) == HashU64(x)
    ensures HashI32(x) == HashU64(x)
  {
  }

  /** A negative `i32` hashes like the `u64` that sign extension produces, not like its absolute value. */
  lemma {:induction false} NegativeI32HashesAsU64(x: int)
    requires -0x8000_0000 <= x < 0
    ensures HashI32(x) == HashU64(U64_MOD + x)
  {
  }

  /** A string-like key: a `String`, a `StringView`, or a C string in memory. */
  datatype StringKey =
    | OwnedString(s: AuString.Str)
    | View(bytes: AuString.Bytes)
    | CStr(mem: AuString.Bytes)

  /** The bytes a key stands for. */
  function KeyBytes(k: StringKey): AuString.Bytes {
    match k
    case OwnedString(s) => s.bytes
    case View(bytes) => bytes
    case CStr(mem) => AuString.CString(mem)
  }

  /** `Hash<String>`, `Hash<StringView>` and `Hash<const char*>`: all go through `hash_string_view`. */
  function HashString(k: StringKey): (r: bv64)
    ensures r == AuString.Fnv1a(KeyBytes(k))
  {
    match k
    case OwnedString(s) => AuString.Fnv1a(s.bytes)
    case View(bytes) => AuString.Fnv1a(bytes)
    case CStr(mem) => AuString.Fnv1a(AuString.CString(mem))
  }

  /** Keys with the same bytes hash alike, whatever their kind. */
  lemma {:induction false} StringHashesAgree(a: StringKey, b: StringKey)
    requires KeyBytes(a) == KeyBytes(b)
    ensures HashString(a) == HashString(b)
  {
  }

  /** A C string hashes like the view of the bytes before its terminator. */
  lemma {:induction false} CStringHashesItsPrefix(text: AuString.Bytes, rest: AuString.Bytes)
    requires forall i :: 0 <= i < |text| ==> text[i] != 0
    ensures HashString(CStr(text + [0] + rest)) == HashString(View(text))
  {
    CStringOfTerminated(text, rest);
  }

  lemma {:induction false} CStringOfTerminated(text: AuString.Bytes, rest: AuString.Bytes)
    requires forall i :: 0 <= i < |text| ==> text[i] != 0
    ensures AuString.CString(text + [0] + rest) == text
    decreases |text|
  {
    if |text| > 0 {
      assert (text + [0] + rest)[1..] == text[1..] + [0] + rest;
      CStringOfTerminated(text[1..], rest);
    } else {
      assert (text + [0] + rest)[0] == 0;
    }
  }

  /**
   The generic `Hash<T>`: FNV-1a over the `sizeof(T)` bytes of the object's
   representation, given here as `repr`. It is the string hash of a view of
   those bytes.
   */
  method HashObject(repr: AuString.Bytes) returns (hash: bv64)
    ensures hash == HashString(View(repr))
  {
    hash := AuString.FNV_OFFSET_BASIS;
    var i := 0;
    while i < |repr|
      invariant 0 <= i <= |repr|
      invariant hash == AuString.Fnv1a(repr[..i])
    {
      assert repr[..i + 1][..i] == repr[..i];
      hash := AuString.FnvStep(hash, repr[i]);
      i := i + 1;
    }
    assert repr[..|repr|] == repr;
  }

  /** `EqualTo<T>`: `operator==`. */
  function EqualTo<T(==)>(a: T, b: T): (r: bool)
    ensures r <==> a == b
  {
    a == b
  }
}
