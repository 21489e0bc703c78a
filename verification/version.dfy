/**
 `Version` (`libauxid/include/auxid/auxid.hpp`): three 32-bit fields packed
 into one 64-bit number by `to_u64`, major from bit 40, minor from bit 16,
 patch from bit 0, combined with bitwise or.
 */
module Version {

  datatype Version = Version(major: bv32, minor: bv32, patch: bv32)

  /** `Version{}`: every field value-initialised to 0. */
  const DEFAULT: Version := Version(0, 0, 0)

  /** `to_u64()`, with the shifts done in 64 bits. */
  function ToU64(v: Version): (r: bv64)
    ensures r & 0xFFFF == (v.patch & 0xFFFF) as bv64
    ensures r == 0 <==> v.patch == 0 && v.minor == 0 && v.major & 0xFF_FFFF == 0
  {
    MajorBits(v.major) | ((v.minor as bv64) << 16) | (v.patch as bv64)
  }

  /** `static_cast<u64>(major) << 40`. */
  function MajorBits(major: bv32): bv64 {
    (major as bv64) << 40
  }

  /** The bounds under which the three fields occupy disjoint bits: 24, 24 and 16 bits. */
  predicate Fits(v: Version) {
    v.major < 0x100_0000 && v.minor < 0x100_0000 && v.patch < 0x1_0000
  }

  /** Reading the fields back out of a packed number: the inverse of `ToU64` on versions that fit. */
  function FromU64(x: bv64): (v: Version)
    ensures Fits(v)
  {
    Version((x >> 40) as bv32, ((x >> 16) & 0xFF_FFFF) as bv32, (x & 0xFFFF) as bv32)
  }

  lemma DefaultIsZero()
    ensures ToU64(DEFAULT) == 0
  {
  }

  /** The major field is recovered from bits 40 and up. */
  lemma MajorField(v: Version)
    requires Fits(v)
    ensures (ToU64(v) >> 40) as bv32 == v.major
  {
  }

  /** The minor field is recovered from bits 16 to 39. */
  lemma MinorField(v: Version)
    requires Fits(v)
    ensures ((ToU64(v) >> 16) & 0xFF_FFFF) as bv32 == v.minor
  {
  }

  /** The patch field is recovered from bits 0 to 15. */
  lemma PatchField(v: Version)
    requires Fits(v)
    ensures (ToU64(v) & 0xFFFF) as bv32 == v.patch
  {
  }

  /** A version whose fields fit comes back unchanged from its packed form. */
  lemma RoundTrip(v: Version)
    requires Fits(v)
    ensures FromU64(ToU64(v)) == v
  {
    MajorField(v);
    MinorField(v);
    PatchField(v);
  }

  /** Distinct versions whose fields fit pack to distinct numbers. */
  lemma Injective(a: Version, b: Version)
    requires Fits(a) && Fits(b) && a != b
    ensures ToU64(a) != ToU64(b)
  {
    RoundTrip(a);
    RoundTrip(b);
  }

  /** Bits of `major` from bit 24 up are shifted out of the 64-bit result. */
  lemma HighMajorBitsLost(v: Version)
    ensures ToU64(v) == ToU64(v.(major := v.major & 0xFF_FFFF))
  {
    ShiftDropsHighBits(v.major);
  }

  /** Shifting a 32-bit value left by 40 in 64 bits keeps only its low 24 bits. */
  lemma ShiftDropsHighBits(m: bv32)
    ensures MajorBits(m) == MajorBits(m & 0xFF_FFFF)
  {
    assert (m as bv64) & 0xFF_FFFF == (m & 0xFF_FFFF) as bv64;
    assert (m as bv64) << 40 == ((m as bv64) & 0xFF_FFFF) << 40;
  }

  /** Outside the bounds different versions pack alike. */
  lemma Collisions()
    ensures ToU64(Version(0x100_0000, 0, 0)) == ToU64(DEFAULT)
    ensures ToU64(Version(0, 0, 0x1_0000)) == ToU64(Version(0, 1, 0))
    ensures ToU64(Version(0, 0x100_0000, 0)) == ToU64(Version(1, 0, 0))
  {
  }
}
