/**
 `HashSet<K>` (`include/auxid/containers/hash_set.hpp`): keys are kept densely
 in an entry vector, and a power-of-two array of buckets maps hash positions
 to entry indices by linear probing. Erasure closes the gap with a backward
 shift and fills the entry hole with the last entry (swap-remove).

 Bucket positions are `hash & mask`, written here as `hash % N` for the
 bucket count `N` (a power of two); stepping `(idx + 1) & mask` is `Next`, and
 the probe distance `(b - a) & mask` is `Dist`. The hasher is a parameter.
 */
module HashSet {
  import opened Common
  import AuVec
  import HashBase

  const INVALID: nat := HashBase.INDEX_INVALID

  /** The entries, the bucket array and `m_mask`. */
  datatype HashSet<K> = HashSet(entries: AuVec.Vec<K>, buckets: seq<nat>, mask: nat)

  // ---------------------------------------------------------------------------
  // Cyclic positions
  // ---------------------------------------------------------------------------

  /** `(p + 1) & mask`. */
  function Next(p: nat, n: nat): (r: nat)
    requires p < n
    ensures r < n
  {
    if p + 1 < n then p + 1 else 0
  }

  /** `(b - a) & mask`: how far `b` lies after `a`, going round. */
  function Dist(a: nat, b: nat, n: nat): (r: nat)
    requires a < n && b < n
    ensures r < n
    ensures r == 0 <==> a == b
  {
    if a <= b then b - a else b + n - a
  }

  /** `hash & mask`. */
  function Home<K>(hash: K -> nat, k: K, n: nat): (r: nat)
    requires n > 0
    ensures r < n
  {
    hash(k) % n
  }

  /** One more step from `p` is one further from `a`, unless it comes back round to `a`. */
  lemma DistNext(a: nat, p: nat, n: nat)
    requires a < n && p < n && Dist(a, p, n) + 1 < n
    ensures Dist(a, Next(p, n), n) == Dist(a, p, n) + 1
  {
  }

  /** A step towards `e` that is not yet at `e` brings it one closer. */
  lemma NextCloser(p: nat, e: nat, n: nat)
    requires p < n && e < n && p != e
    ensures Dist(Next(p, n), e, n) == Dist(p, e, n) - 1
  {
  }

  /** Distances add up along a path that does not go all the way round. */
  lemma DistAdd(a: nat, b: nat, c: nat, n: nat)
    requires a < n && b < n && c < n && Dist(a, b, n) + Dist(b, c, n) < n
    ensures Dist(a, c, n) == Dist(a, b, n) + Dist(b, c, n)
  {
  }

  // ---------------------------------------------------------------------------
  // Counting empty buckets
  // ---------------------------------------------------------------------------

  /** The number of buckets holding `INDEX_INVALID`. */
  function Free(bs: seq<nat>): (c: nat)
    ensures c <= |bs|
    decreases |bs|
  {
    if |bs| == 0 then 0 else Free(bs[..|bs| - 1]) + (if bs[|bs| - 1] == INVALID then 1 else 0)
  }

  /** Writing one bucket changes the count by what left it and what arrived. */
  lemma {:induction false} FreeUpdate(bs: seq<nat>, b: nat, v: nat)
    requires b < |bs|
    ensures Free(bs[b := v]) == Free(bs) - (if bs[b] == INVALID then 1 else 0) + (if v == INVALID then 1 else 0)
    decreases |bs|
  {
    var cs := bs[b := v];
    var k := |bs| - 1;
    if b < k {
      assert cs[..k] == bs[..k][b := v];
      FreeUpdate(bs[..k], b, v);
    } else {
      assert cs[..k] == bs[..k];
    }
  }

  /** A fresh bucket array is all free. */
  lemma {:induction false} FreeAll(n: nat)
    ensures Free(AuVec.Fill(n, INVALID)) == n
    decreases n
  {
    if n > 0 {
      assert AuVec.Fill(n, INVALID)[..n - 1] == AuVec.Fill(n - 1, INVALID);
      FreeAll(n - 1);
    }
  }

  /** A free bucket, when the count says there is one. */
  function SomeFree(bs: seq<nat>): (b: nat)
    requires Free(bs) > 0
    ensures b < |bs| && bs[b] == INVALID
    decreases |bs|
  {
    if bs[|bs| - 1] == INVALID then |bs| - 1 else SomeFree(bs[..|bs| - 1])
  }

  // ---------------------------------------------------------------------------
  // The bucket invariant
  // ---------------------------------------------------------------------------

  /** The home position of the entry bucket `b` points at. */
  function HomeOf<K>(es: seq<K>, bs: seq<nat>, hash: K -> nat, b: nat): (h: nat)
    requires b < |bs| && bs[b] < |es|
    ensures h < |bs|
  {
    Home(hash, es[bs[b]], |bs|)
  }

  /**
   Every bucket on the probe path from the home of bucket `b`'s entry up to
   `b` is in use, except perhaps the bucket `skip`.
   */
  predicate ClearFor<K>(es: seq<K>, bs: seq<nat>, hash: K -> nat, b: nat, skip: int)
    requires b < |bs| && bs[b] < |es|
  {
    forall q :: 0 <= q < |bs| && q != skip && Dist(HomeOf(es, bs, hash, b), q, |bs|) < Dist(HomeOf(es, bs, hash, b), b, |bs|)
      ==> bs[q] != INVALID
  }

  /** Every entry is reachable by probing from its home without meeting a free bucket (`skip` aside). */
  predicate AllClear<K>(es: seq<K>, bs: seq<nat>, hash: K -> nat, skip: int) {
    forall b :: 0 <= b < |bs| && bs[b] != INVALID && bs[b] < |es| ==> ClearFor(es, bs, hash, b, skip)
  }

  /** No entry index sits in two buckets. */
  predicate Injective(bs: seq<nat>) {
    forall b1, b2 :: 0 <= b1 < |bs| && 0 <= b2 < |bs| && bs[b1] != INVALID && bs[b1] == bs[b2] ==> b1 == b2
  }

  /**
   The buckets hold exactly the entry indices below `m` other than `gone`
   (pass `gone == m` for none), each once, and every other bucket is free.
   */
  predicate Holds(bs: seq<nat>, m: nat, gone: nat) {
    InRange(bs, m, gone) && Injective(bs) && Covers(bs, m, gone) && Free(bs) + m == |bs| + (if gone < m then 1 else 0)
  }

  /** Every bucket in use holds an index below `m` other than `gone`. */
  predicate InRange(bs: seq<nat>, m: nat, gone: nat) {
    forall b :: 0 <= b < |bs| && bs[b] != INVALID ==> bs[b] < m && bs[b] != gone
  }

  /** Some bucket holds index `i`. */
  predicate Located(bs: seq<nat>, i: nat) {
    exists b :: 0 <= b < |bs| && bs[b] == i
  }

  /** Every index below `m` other than `gone` is in some bucket. */
  predicate Covers(bs: seq<nat>, m: nat, gone: nat) {
    forall i: nat :: i < m && i != gone ==> Located(bs, i)
  }

  /** A bucket array indexing `es[..m]` (less `gone`) with every path clear. */
  predicate Table<K>(es: seq<K>, bs: seq<nat>, hash: K -> nat, m: nat, gone: nat) {
    m <= |es| && |bs| > 0 && Holds(bs, m, gone) && AllClear(es, bs, hash, -1)
  }

  /** `EqualTo` never equates two different entries. */
  predicate Distinct<K(==)>(es: seq<K>) {
    forall i, j :: 0 <= i < |es| && 0 <= j < |es| && HashBase.EqualTo(es[i], es[j]) ==> i == j
  }

  /**
   The class invariant: no buckets and no entries, or a power-of-two bucket
   count of at least 8, `mask` one less, fewer entries than buckets and the
   bucket invariant. There are at most 2^31 buckets, so that the mask
   survives the `(i32)` cast in `contains`.
   */
  predicate Valid<K(==)>(s: HashSet<K>, hash: K -> nat) {
    var es := s.entries.elems;
    var n := |s.buckets|;
    && AuVec.Valid(s.entries)
    && n <= MAX_BUCKETS
    && (n == 0 ==> |es| == 0 && s.mask == 0)
    && (n > 0 ==> IsPow2(n) && n >= 8 && s.mask == n - 1 && |es| < n && Table(es, s.buckets, hash, |es|, |es|))
    && Distinct(es)
  }

  /** The most buckets a table may have: `(i32) m_mask` is then the mask itself. */
  const MAX_BUCKETS: nat := 0x8000_0000

  /** The values a sequence of entries holds. */
  function Members<K>(es: seq<K>): set<K> {
    set i | 0 <= i < |es| :: es[i]
  }

  /** The keys of the set. */
  function Keys<K(==)>(s: HashSet<K>): set<K> {
    Members(s.entries.elems)
  }

  // ---------------------------------------------------------------------------
  // insert_into_buckets and rehash_buckets
  // ---------------------------------------------------------------------------

  /**
   `insert_into_buckets(i, es[i])`: probe from the key's home to the first
   free bucket and put `i` there.
   */
  method InsertIntoBuckets<K>(es: seq<K>, bs: seq<nat>, hash: K -> nat, i: nat) returns (r: seq<nat>)
    requires i < |es| && i < |bs| && i < INVALID && Table(es, bs, hash, i, i)
    ensures Table(es, r, hash, i + 1, i + 1)
    ensures |r| == |bs|
    ensures forall b :: 0 <= b < |bs| && bs[b] != INVALID ==> r[b] == bs[b]
  {
    var n: nat := |bs|;
    assert Free(bs) > 0;
    ghost var e: nat := SomeFree(bs);
    var home: nat := Home(hash, es[i], n);
    var idx: nat := home;
    while bs[idx] != INVALID
      invariant idx < n
      invariant Dist(home, idx, n) <= Dist(home, e, n)
      invariant forall q :: 0 <= q < n && Dist(home, q, n) < Dist(home, idx, n) ==> bs[q] != INVALID
      decreases Dist(idx, e, n)
    {
      DistNext(home, idx, n);
      NextCloser(idx, e, n);
      idx := Next(idx, n);
    }
    r := bs[idx := i];
    PlacedEntry(es, bs, hash, i, idx);
  }

  /** Putting index `i` in a free bucket whose probe path is in use keeps the table whole and adds `i`. */
  lemma {:induction false} PlacedEntry<K>(es: seq<K>, bs: seq<nat>, hash: K -> nat, i: nat, idx: nat)
    requires i < |es| && i < INVALID && Table(es, bs, hash, i, i)
    requires idx < |bs| && bs[idx] == INVALID
    requires forall q :: 0 <= q < |bs| && Dist(Home(hash, es[i], |bs|), q, |bs|) < Dist(Home(hash, es[i], |bs|), idx, |bs|) ==> bs[q] != INVALID
    ensures Table(es, bs[idx := i], hash, i + 1, i + 1)
  {
    PlacedHolds(bs, i, idx);
    PlacedClear(es, bs, hash, i, idx);
  }

  lemma {:induction false} PlacedHolds(bs: seq<nat>, i: nat, idx: nat)
    requires Holds(bs, i, i) && idx < |bs| && bs[idx] == INVALID && i < INVALID
    ensures Holds(bs[idx := i], i + 1, i + 1)
  {
    var r := bs[idx := i];
    FreeUpdate(bs, idx, i);
    forall j: nat | j < i + 1
      ensures Located(r, j)
    {
      if j == i {
        assert r[idx] == j;
      } else {
        assert Located(bs, j);
        var b :| 0 <= b < |bs| && bs[b] == j;
        assert r[b] == j;
      }
    }
  }

  lemma {:induction false} PlacedClear<K>(es: seq<K>, bs: seq<nat>, hash: K -> nat, i: nat, idx: nat)
    requires i < |es| && |bs| > 0 && AllClear(es, bs, hash, -1)
    requires idx < |bs| && bs[idx] == INVALID && i < INVALID
    requires forall q :: 0 <= q < |bs| && Dist(Home(hash, es[i], |bs|), q, |bs|) < Dist(Home(hash, es[i], |bs|), idx, |bs|) ==> bs[q] != INVALID
    ensures AllClear(es, bs[idx := i], hash, -1)
  {
    var r := bs[idx := i];
    forall b | 0 <= b < |r| && r[b] != INVALID && r[b] < |es|
      ensures ClearFor(es, r, hash, b, -1)
    {
      if b != idx {
        assert ClearFor(es, bs, hash, b, -1);
        assert HomeOf(es, r, hash, b) == HomeOf(es, bs, hash, b);
      } else {
        assert HomeOf(es, r, hash, b) == Home(hash, es[i], |bs|);
      }
    }
  }

  /** The table that indexes no entry yet: every bucket free. */
  lemma {:induction false} EmptyTable<K>(es: seq<K>, hash: K -> nat, n: nat)
    requires n > 0
    ensures Table(es, AuVec.Fill(n, INVALID), hash, 0, 0)
  {
    FreeAll(n);
  }

  /**
   `rehash_buckets(n)`: a fresh array of `n` free buckets, then every entry
   inserted again in index order.
   */
  method RehashBuckets<K>(es: seq<K>, hash: K -> nat, n: nat) returns (bs: seq<nat>)
    requires |es| < n <= U32_MOD
    ensures |bs| == n && Table(es, bs, hash, |es|, |es|)
  {
    bs := AuVec.Fill(n, INVALID);
    EmptyTable(es, hash, n);
    var i := 0;
    while i < |es|
      invariant i <= |es| && |bs| == n
      invariant Table(es, bs, hash, i, i)
    {
      bs := InsertIntoBuckets(es, bs, hash, i);
      i := i + 1;
    }
  }

  // ---------------------------------------------------------------------------
  // contains
  // ---------------------------------------------------------------------------

  /**
   `contains(key)`: probe from the key's home until a free bucket, a match,
   or `mask + 1` buckets seen. With the invariant it answers membership.
   */
  method Contains<K(==)>(s: HashSet<K>, hash: K -> nat, key: K) returns (found: bool)
    requires Valid(s, hash)
    ensures found <==> key in Keys(s)
  {
    if |s.buckets| == 0 {
      return false;
    }
    ghost var es := s.entries.elems;
    ghost var tb: int := -1;
    if key in Keys(s) {
      ghost var ti :| 0 <= ti < |es| && es[ti] == key;
      assert Located(s.buckets, ti);
      tb :| 0 <= tb < |s.buckets| && s.buckets[tb] == ti;
    }
    found := Probe(s.entries.elems, s.buckets, hash, s.mask, key, tb);
  }

  /**
   The probe loop of `contains`. `target`, when not negative, is a bucket
   whose entry equals the key: the loop then reaches it, or an earlier match.
   */
  method Probe<K(==)>(es: seq<K>, bs: seq<nat>, hash: K -> nat, mask: nat, key: K, ghost target: int) returns (found: bool)
    requires |bs| > 0 && mask == |bs| - 1 && AllClear(es, bs, hash, -1) && InRange(bs, |es|, |es|)
    requires target >= 0 ==> target < |bs| && bs[target] != INVALID && es[bs[target]] == key
    ensures found ==> key in es
    ensures target >= 0 ==> found
  {
    var n: nat := |bs|;
    var home: nat := Home(hash, key, n);
    var idx: nat := home;
    var dist: nat := 0;
    if target >= 0 {
      assert HomeOf(es, bs, hash, target) == home;
    }
    while true
      invariant idx < n && dist < n && Dist(home, idx, n) == dist
      invariant target >= 0 ==> dist <= Dist(home, target, n)
      decreases n - dist
    {
      var entry := bs[idx];
      if entry == INVALID {
        if target >= 0 {
          OnPath(es, bs, hash, target, idx);
        }
        return false;
      }
      if HashBase.EqualTo(es[entry], key) {
        return true;
      }
      ghost var prev := idx;
      dist := dist + 1;
      idx := Next(idx, n);
      if dist > mask {
        return false;
      }
      DistNext(home, prev, n);
    }
  }

  /** A free bucket no further from the home than an entry's own bucket is that bucket only if it is in use. */
  lemma {:induction false} OnPath<K>(es: seq<K>, bs: seq<nat>, hash: K -> nat, b: nat, q: nat)
    requires |bs| > 0 && AllClear(es, bs, hash, -1)
    requires b < |bs| && bs[b] != INVALID && bs[b] < |es| && q < |bs|
    requires Dist(HomeOf(es, bs, hash, b), q, |bs|) <= Dist(HomeOf(es, bs, hash, b), b, |bs|)
    ensures bs[q] != INVALID
  {
    var h := HomeOf(es, bs, hash, b);
    if Dist(h, q, |bs|) < Dist(h, b, |bs|) {
      assert ClearFor(es, bs, hash, b, -1);
    }
  }

  // ---------------------------------------------------------------------------
  // backward_shift
  // ---------------------------------------------------------------------------

  /** Going part of the way to `b` leaves the rest of the distance. */
  lemma DistSplit(h: nat, q: nat, b: nat, n: nat)
    requires h < n && q < n && b < n && Dist(h, q, n) < Dist(h, b, n)
    ensures Dist(q, b, n) == Dist(h, b, n) - Dist(h, q, n)
  {
  }

  /** Two positions at the same distance from `a` are the same position. */
  lemma DistInjective(a: nat, p: nat, q: nat, n: nat)
    requires a < n && p < n && q < n && Dist(a, p, n) == Dist(a, q, n)
    ensures p == q
  {
  }

  /**
   Every bucket whose probe path passes over the hole lies at least as far
   from the hole as `nx`: the buckets between the hole and `nx` are settled.
   */
  predicate Scanned<K>(es: seq<K>, bs: seq<nat>, hash: K -> nat, hole: nat, nx: nat)
    requires hole < |bs| && nx < |bs|
  {
    forall b :: 0 <= b < |bs| && bs[b] != INVALID && bs[b] < |es|
      && Dist(HomeOf(es, bs, hash, b), hole, |bs|) < Dist(HomeOf(es, bs, hash, b), b, |bs|)
      ==> Dist(hole, b, |bs|) >= Dist(hole, nx, |bs|)
  }

  /**
   The state of the shift loop. The actual buckets still hold a stale index
   at `hole`; with the hole freed they index every entry below `m` but
   `gone`, every path is clear except over the hole, and only buckets from
   `nx` on may still need the hole. `e` is a free bucket the scan stops at.
   */
  predicate Shifting<K>(es: seq<K>, bs: seq<nat>, hash: K -> nat, m: nat, gone: nat, hole: nat, nx: nat, e: nat) {
    && 2 <= |bs| <= U32_MOD && m < |bs| && m <= |es|
    && hole < |bs| && nx < |bs| && e < |bs|
    && bs[hole] != INVALID && bs[e] == INVALID
    && nx != hole && Dist(hole, nx, |bs|) <= Dist(hole, e, |bs|)
    && Holds(bs[hole := INVALID], m, gone)
    && AllClear(es, bs[hole := INVALID], hash, hole)
    && Scanned(es, bs[hole := INVALID], hash, hole, nx)
  }

  /** Freeing the bucket of entry `gone` starts the shift at the next bucket. */
  lemma {:induction false} ShiftStart<K>(es: seq<K>, bs: seq<nat>, hash: K -> nat, m: nat, hole: nat, e: nat)
    requires Table(es, bs, hash, m, m) && 2 <= |bs| <= U32_MOD && m < |bs|
    requires hole < |bs| && bs[hole] != INVALID && e < |bs| && bs[e] == INVALID
    ensures bs[hole] < m
    ensures Shifting(es, bs, hash, m, bs[hole], hole, Next(hole, |bs|), e)
  {
    var n := |bs|;
    var L := bs[hole := INVALID];
    var gone := bs[hole];
    ShiftStartHolds(bs, m, hole);
    forall b | 0 <= b < n && L[b] != INVALID && L[b] < |es|
      ensures ClearFor(es, L, hash, b, hole)
    {
      assert ClearFor(es, bs, hash, b, -1);
      assert HomeOf(es, L, hash, b) == HomeOf(es, bs, hash, b);
    }
  }

  lemma {:induction false} ShiftStartHolds(bs: seq<nat>, m: nat, hole: nat)
    requires Holds(bs, m, m) && m < |bs| <= U32_MOD && hole < |bs| && bs[hole] != INVALID
    ensures bs[hole] < m && Holds(bs[hole := INVALID], m, bs[hole])
  {
    var L := bs[hole := INVALID];
    var gone := bs[hole];
    FreeUpdate(bs, hole, INVALID);
    forall i: nat | i < m && i != gone
      ensures Located(L, i)
    {
      assert Located(bs, i);
      var b :| 0 <= b < |bs| && bs[b] == i;
      assert L[b] == i;
    }
  }

  /** Moving the entry at `nx` back into the hole makes `nx` the new hole. */
  lemma {:induction false} ShiftMove<K>(es: seq<K>, bs: seq<nat>, hash: K -> nat, m: nat, gone: nat, hole: nat, nx: nat, e: nat)
    requires Shifting(es, bs, hash, m, gone, hole, nx, e)
    requires bs[nx] != INVALID && bs[nx] < |es|
    requires Dist(Home(hash, es[bs[nx]], |bs|), hole, |bs|) < Dist(Home(hash, es[bs[nx]], |bs|), nx, |bs|)
    ensures Shifting(es, bs[hole := bs[nx]], hash, m, gone, nx, Next(nx, |bs|), e)
  {
    var n := |bs|;
    var x := bs[nx];
    var L := bs[hole := INVALID];
    var L' := bs[hole := x][nx := INVALID];
    assert L' == L[hole := x][nx := INVALID];
    ShiftMoveHolds(L, m, gone, hole, nx);
    ShiftMoveClear(es, L, hash, hole, nx);
  }

  lemma {:induction false} ShiftMoveHolds(L: seq<nat>, m: nat, gone: nat, hole: nat, nx: nat)
    requires Holds(L, m, gone) && m < |L| <= U32_MOD && hole < |L| && nx < |L| && hole != nx
    requires L[hole] == INVALID && L[nx] != INVALID
    ensures Holds(L[hole := L[nx]][nx := INVALID], m, gone)
  {
    var x := L[nx];
    var L1 := L[hole := x];
    var L' := L1[nx := INVALID];
    FreeUpdate(L, hole, x);
    FreeUpdate(L1, nx, INVALID);
    forall i: nat | i < m && i != gone
      ensures Located(L', i)
    {
      if i == x {
        assert L'[hole] == i;
      } else {
        assert Located(L, i);
        var b :| 0 <= b < |L| && L[b] == i;
        assert L'[b] == i;
      }
    }
  }

  lemma {:induction false} ShiftMoveClear<K>(es: seq<K>, L: seq<nat>, hash: K -> nat, hole: nat, nx: nat)
    requires |L| > 0 && hole < |L| && nx < |L| && hole != nx
    requires L[hole] == INVALID && L[nx] != INVALID && L[nx] < |es|
    requires AllClear(es, L, hash, hole)
    requires Dist(HomeOf(es, L, hash, nx), hole, |L|) < Dist(HomeOf(es, L, hash, nx), nx, |L|)
    ensures AllClear(es, L[hole := L[nx]][nx := INVALID], hash, nx)
  {
    var n := |L|;
    var x := L[nx];
    var ideal := HomeOf(es, L, hash, nx);
    var L' := L[hole := x][nx := INVALID];
    assert ClearFor(es, L, hash, nx, hole);
    forall b | 0 <= b < n && L'[b] != INVALID && L'[b] < |es|
      ensures ClearFor(es, L', hash, b, nx)
    {
      if b == hole {
        assert HomeOf(es, L', hash, b) == ideal;
      } else {
        assert HomeOf(es, L', hash, b) == HomeOf(es, L, hash, b);
        assert ClearFor(es, L, hash, b, hole);
      }
    }
  }

  /** An entry whose path does not pass over the hole stays; the scan moves on. */
  lemma {:induction false} ShiftKeep<K>(es: seq<K>, bs: seq<nat>, hash: K -> nat, m: nat, gone: nat, hole: nat, nx: nat, e: nat)
    requires Shifting(es, bs, hash, m, gone, hole, nx, e)
    requires bs[nx] != INVALID && bs[nx] < |es|
    requires Dist(Home(hash, es[bs[nx]], |bs|), hole, |bs|) >= Dist(Home(hash, es[bs[nx]], |bs|), nx, |bs|)
    ensures Shifting(es, bs, hash, m, gone, hole, Next(nx, |bs|), e)
  {
    var n := |bs|;
    var L := bs[hole := INVALID];
    assert nx != e;
    if Dist(hole, nx, n) == Dist(hole, e, n) {
      DistInjective(hole, nx, e, n);
    }
    DistNext(hole, nx, n);
    forall b | 0 <= b < n && L[b] != INVALID && L[b] < |es|
      && Dist(HomeOf(es, L, hash, b), hole, n) < Dist(HomeOf(es, L, hash, b), b, n)
      ensures Dist(hole, b, n) >= Dist(hole, Next(nx, n), n)
    {
      assert b != nx;
      if Dist(hole, b, n) == Dist(hole, nx, n) {
        DistInjective(hole, b, nx, n);
      }
    }
  }

  /** When the scan reaches a free bucket, freeing the hole leaves every path clear. */
  lemma {:induction false} ShiftFinish<K>(es: seq<K>, bs: seq<nat>, hash: K -> nat, m: nat, gone: nat, hole: nat, nx: nat, e: nat)
    requires Shifting(es, bs, hash, m, gone, hole, nx, e)
    requires bs[nx] == INVALID
    ensures Table(es, bs[hole := INVALID], hash, m, gone)
  {
    var n := |bs|;
    var L := bs[hole := INVALID];
    forall b | 0 <= b < n && L[b] != INVALID && L[b] < |es|
      ensures ClearFor(es, L, hash, b, -1)
    {
      assert ClearFor(es, L, hash, b, hole);
      FinishOverHole(es, L, hash, hole, nx, b);
    }
  }

  /** No bucket's path can pass over the hole once the scan stands on a free bucket. */
  lemma {:induction false} FinishOverHole<K>(es: seq<K>, L: seq<nat>, hash: K -> nat, hole: nat, nx: nat, b: nat)
    requires hole < |L| && nx < |L| && b < |L| && nx != hole
    requires L[nx] == INVALID && L[b] != INVALID && L[b] < |es|
    requires ClearFor(es, L, hash, b, hole) && Scanned(es, L, hash, hole, nx)
    ensures Dist(HomeOf(es, L, hash, b), hole, |L|) >= Dist(HomeOf(es, L, hash, b), b, |L|)
  {
    var n := |L|;
    var h := HomeOf(es, L, hash, b);
    if Dist(h, hole, n) < Dist(h, b, n) {
      if Dist(hole, b, n) == Dist(hole, nx, n) {
        DistInjective(hole, b, nx, n);
      }
      DistSplit(h, hole, b, n);
      DistAdd(h, hole, nx, n);
    }
  }

  /**
   `backward_shift(hole)`: walk on from the freed bucket; each entry whose
   probe path passes over the hole moves back into it and leaves a new hole;
   at the first free bucket the last hole is freed.
   */
  method BackwardShift<K>(es: seq<K>, bs: seq<nat>, hash: K -> nat, hole0: nat, ghost m: nat) returns (r: seq<nat>)
    requires Table(es, bs, hash, m, m) && 2 <= |bs| <= U32_MOD && m < |bs|
    requires hole0 < |bs| && bs[hole0] != INVALID
    ensures bs[hole0] < m
    ensures |r| == |bs| && Table(es, r, hash, m, bs[hole0])
  {
    var n: nat := |bs|;
    r := bs;
    var hole: nat := hole0;
    var nx: nat := Next(hole0, n);
    assert Free(bs) > 0;
    ghost var e: nat := SomeFree(bs);
    ShiftStart(es, bs, hash, m, hole0, e);
    ghost var gone := bs[hole0];
    while true
      invariant |r| == n && Shifting(es, r, hash, m, gone, hole, nx, e)
      decreases Dist(nx, e, n)
    {
      var entry := r[nx];
      if entry == INVALID {
        break;
      }
      assert r[hole := INVALID][nx] == entry;
      var ideal := Home(hash, es[entry], n);
      var distCurrent := Dist(ideal, nx, n);
      var distHole := Dist(ideal, hole, n);
      if distHole < distCurrent {
        ShiftMove(es, r, hash, m, gone, hole, nx, e);
        r := r[hole := entry];
        hole := nx;
      } else {
        ShiftKeep(es, r, hash, m, gone, hole, nx, e);
      }
      NextCloser(nx, e, n);
      nx := Next(nx, n);
    }
    ShiftFinish(es, r, hash, m, gone, hole, nx, e);
    r := r[hole := INVALID];
  }

  // ---------------------------------------------------------------------------
  // update_bucket_pointer, remove_at_bucket and erase
  // ---------------------------------------------------------------------------

  /**
   `update_bucket_pointer(key, old_idx, new_idx)`: probe from the key's home
   until the bucket holding `old_idx`, and store `new_idx` there instead.
   */
  method UpdateBucketPointer<K>(bs: seq<nat>, hash: K -> nat, key: K, oldIdx: nat, newIdx: nat) returns (r: seq<nat>)
    requires |bs| > 0 && oldIdx != INVALID && Located(bs, oldIdx) && Injective(bs)
    ensures |r| == |bs|
    ensures forall q :: 0 <= q < |bs| ==> r[q] == if bs[q] == oldIdx then newIdx else bs[q]
  {
    var n: nat := |bs|;
    ghost var b :| 0 <= b < n && bs[b] == oldIdx;
    var idx: nat := Home(hash, key, n);
    while bs[idx] != oldIdx
      invariant idx < n
      decreases Dist(idx, b, n)
    {
      NextCloser(idx, b, n);
      idx := Next(idx, n);
    }
    r := bs[idx := newIdx];
  }

  /** The entries after `m_entries[i] = move(m_entries[last])` (when `i` is not last) and `pop()`. */
  function SwapRemove<K>(es: seq<K>, i: nat): (r: seq<K>)
    requires i < |es|
    ensures |r| == |es| - 1
    ensures forall j :: 0 <= j < |r| && j != i ==> r[j] == es[j]
    ensures i < |r| ==> r[i] == es[|es| - 1]
  {
    var last := |es| - 1;
    (if i != last then es[i := es[last]] else es)[..last]
  }

  /** Removing entry `i` from distinct entries removes exactly its value and keeps them distinct. */
  lemma {:induction false} SwapRemoveMembers<K>(es: seq<K>, i: nat)
    requires i < |es| && Distinct(es)
    ensures Distinct(SwapRemove(es, i))
    ensures Members(SwapRemove(es, i)) == Members(es) - {es[i]}
  {
    var r := SwapRemove(es, i);
    var last := |es| - 1;
    forall x | x in Members(es) - {es[i]}
      ensures x in Members(r)
    {
      var j :| 0 <= j < |es| && es[j] == x;
      if j == last {
        assert r[i] == x;
      } else {
        assert r[j] == x;
      }
    }
    forall x | x in Members(r)
      ensures x in Members(es) - {es[i]}
    {
      var j :| 0 <= j < |r| && r[j] == x;
      if j == i {
        assert HashBase.EqualTo(es[last], es[i]) ==> last == i;
      } else {
        assert HashBase.EqualTo(es[j], es[i]) ==> j == i;
      }
    }
  }

  /** Pointing the bucket of the last entry at the hole left by `gone` re-indexes the swapped entries. */
  lemma {:induction false} RelinkTable<K>(es: seq<K>, bs: seq<nat>, hash: K -> nat, gone: nat, r: seq<nat>)
    requires |es| > 0 && gone < |es| - 1 && Table(es, bs, hash, |es|, gone) && |es| < |bs| <= U32_MOD
    requires |r| == |bs| && forall q :: 0 <= q < |bs| ==> r[q] == if bs[q] == |es| - 1 then gone else bs[q]
    ensures Table(SwapRemove(es, gone), r, hash, |es| - 1, |es| - 1)
  {
    assert Located(bs, |es| - 1);
    var b :| 0 <= b < |bs| && bs[b] == |es| - 1;
    forall q | 0 <= q < |bs| && q != b
      ensures r[q] == bs[q]
    {
    }
    assert r == bs[b := gone];
    RelinkHolds(bs, |es|, gone, b);
    RelinkClear(es, bs, hash, gone, b);
  }

  lemma {:induction false} RelinkHolds(bs: seq<nat>, m: nat, gone: nat, b: nat)
    requires 0 < m <= INVALID && gone < m - 1 && Holds(bs, m, gone) && b < |bs| && bs[b] == m - 1
    ensures Holds(bs[b := gone], m - 1, m - 1)
  {
    var r := bs[b := gone];
    FreeUpdate(bs, b, gone);
    forall i: nat | i < m - 1
      ensures Located(r, i)
    {
      if i == gone {
        assert r[b] == i;
      } else {
        assert Located(bs, i);
        var c :| 0 <= c < |bs| && bs[c] == i;
        assert r[c] == i;
      }
    }
  }

  lemma {:induction false} RelinkClear<K>(es: seq<K>, bs: seq<nat>, hash: K -> nat, gone: nat, b: nat)
    requires 0 < |es| <= INVALID && gone < |es| - 1 && |bs| > 0 && AllClear(es, bs, hash, -1) && InRange(bs, |es|, gone)
    requires b < |bs| && bs[b] == |es| - 1
    ensures AllClear(SwapRemove(es, gone), bs[b := gone], hash, -1)
  {
    var es' := SwapRemove(es, gone);
    var r := bs[b := gone];
    forall q | 0 <= q < |r| && r[q] != INVALID && r[q] < |es'|
      ensures ClearFor(es', r, hash, q, -1)
    {
      assert ClearFor(es, bs, hash, q, -1);
      assert HomeOf(es', r, hash, q) == HomeOf(es, bs, hash, q);
    }
  }

  /** With the last entry's bucket freed, dropping the last entry leaves a whole table. */
  lemma {:induction false} DropLastTable<K>(es: seq<K>, bs: seq<nat>, hash: K -> nat)
    requires |es| > 0 && Table(es, bs, hash, |es|, |es| - 1)
    ensures Table(es[..|es| - 1], bs, hash, |es| - 1, |es| - 1)
  {
    var es' := es[..|es| - 1];
    forall q | 0 <= q < |bs| && bs[q] != INVALID && bs[q] < |es'|
      ensures ClearFor(es', bs, hash, q, -1)
    {
      assert ClearFor(es, bs, hash, q, -1);
      assert HomeOf(es', bs, hash, q) == HomeOf(es, bs, hash, q);
    }
  }

  /**
   `remove_at_bucket(bucket, entry)`: close the bucket gap by backward
   shift, move the last entry into the freed entry slot and repoint its
   bucket, then pop the last entry.
   */
  method RemoveAtBucket<K(==)>(s: HashSet<K>, hash: K -> nat, bucket: nat, entry: nat) returns (t: HashSet<K>)
    requires Valid(s, hash) && bucket < |s.buckets| && s.buckets[bucket] == entry && entry != INVALID
    ensures entry < |s.entries.elems|
    ensures Valid(t, hash)
    ensures t.entries == AuVec.Vec(SwapRemove(s.entries.elems, entry), s.entries.cap)
    ensures |t.buckets| == |s.buckets| && t.mask == s.mask
  {
    var moved, bs := RemoveEntry(s.entries.elems, s.buckets, hash, bucket);
    t := HashSet(AuVec.Pop(AuVec.Vec(moved, s.entries.cap)), bs, s.mask);
    SwapRemoveMembers(s.entries.elems, entry);
  }

  /**
   The bucket and entry work of `remove_at_bucket` on the bare arrays:
   `moved` is the entry array after the last entry is moved into the
   removed one's slot, before the pop.
   */
  method RemoveEntry<K>(es: seq<K>, bs: seq<nat>, hash: K -> nat, bucket: nat) returns (moved: seq<K>, r: seq<nat>)
    requires Table(es, bs, hash, |es|, |es|) && 2 <= |bs| <= U32_MOD && |es| < |bs|
    requires bucket < |bs| && bs[bucket] != INVALID
    ensures bs[bucket] < |es| && |moved| == |es|
    ensures moved[..|es| - 1] == SwapRemove(es, bs[bucket])
    ensures |r| == |bs| && Table(SwapRemove(es, bs[bucket]), r, hash, |es| - 1, |es| - 1)
  {
    var entry := bs[bucket];
    r := BackwardShift(es, bs, hash, bucket, |es|);
    var last: nat := |es| - 1;
    moved := es;
    if entry != last {
      moved := es[entry := es[last]];
      var shifted := r;
      r := UpdateBucketPointer(shifted, hash, moved[entry], last, entry);
      RelinkTable(es, shifted, hash, entry, r);
    } else {
      DropLastTable(es, r, hash);
    }
  }

  /** The position of the first entry equal to `key`. */
  function IndexOf<K(==)>(es: seq<K>, key: K): (i: nat)
    requires key in es
    ensures i < |es| && es[i] == key
    ensures forall j :: 0 <= j < i ==> es[j] != key
  {
    if es[0] == key then 0 else 1 + IndexOf(es[1..], key)
  }

  /**
   `erase(key)`: probe from the key's home; a free bucket means absent,
   a match is removed by `remove_at_bucket`. The probe has no distance
   bound: it always meets a free bucket or the key first.
   */
  method Erase<K(==)>(s: HashSet<K>, hash: K -> nat, key: K) returns (t: HashSet<K>, erased: bool)
    requires Valid(s, hash)
    ensures Valid(t, hash)
    ensures erased <==> key in Keys(s)
    ensures Keys(t) == Keys(s) - {key}
    ensures !erased ==> t == s
    ensures erased ==> t.entries.elems == SwapRemove(s.entries.elems, IndexOf(s.entries.elems, key))
    ensures |t.buckets| == |s.buckets| && t.entries.cap == s.entries.cap
  {
    if |s.buckets| == 0 {
      return s, false;
    }
    var es := s.entries.elems;
    var bs := s.buckets;
    ghost var target: int := -1;
    if key in Keys(s) {
      ghost var ti :| 0 <= ti < |es| && es[ti] == key;
      assert Located(bs, ti);
      target :| 0 <= target < |bs| && bs[target] == ti;
    }
    assert Free(bs) > 0;
    var found, idx := Locate(es, bs, hash, key, target);
    if !found {
      return s, false;
    }
    var entry := bs[idx];
    t := RemoveAtBucket(s, hash, idx, entry);
    assert entry == IndexOf(es, key) by {
      assert HashBase.EqualTo(es[entry], es[IndexOf(es, key)]);
    }
    SwapRemoveMembers(es, entry);
    erased := true;
  }

  /**
   The probe loop of `erase`: from the key's home to a free bucket (not
   found) or a bucket whose entry equals the key. `target`, when not
   negative, is a bucket holding the key.
   */
  method Locate<K(==)>(es: seq<K>, bs: seq<nat>, hash: K -> nat, key: K, ghost target: int) returns (found: bool, idx: nat)
    requires |bs| > 0 && Free(bs) > 0 && AllClear(es, bs, hash, -1) && InRange(bs, |es|, |es|)
    requires target >= 0 ==> target < |bs| && bs[target] != INVALID && es[bs[target]] == key
    ensures idx < |bs|
    ensures found ==> bs[idx] != INVALID && bs[idx] < |es| && es[bs[idx]] == key
    ensures target >= 0 ==> found
  {
    var n: nat := |bs|;
    ghost var e: nat := SomeFree(bs);
    var home: nat := Home(hash, key, n);
    idx := home;
    if target >= 0 {
      assert HomeOf(es, bs, hash, target) == home;
    }
    while true
      invariant idx < n
      invariant target >= 0 ==> Dist(home, idx, n) <= Dist(home, target, n)
      decreases Dist(idx, e, n)
    {
      var entry := bs[idx];
      if entry == INVALID {
        if target >= 0 {
          OnPath(es, bs, hash, target, idx);
        }
        return false, idx;
      }
      if HashBase.EqualTo(es[entry], key) {
        return true, idx;
      }
      if target >= 0 {
        DistNext(home, idx, n);
      }
      NextCloser(idx, e, n);
      idx := Next(idx, n);
    }
  }

  // ---------------------------------------------------------------------------
  // Construction, growth, insert and clear
  // ---------------------------------------------------------------------------

  /** The entry limit under which `insert` and `reserve` keep the bucket count within `MAX_BUCKETS`. */
  const MAX_ENTRIES: nat := 0x2000_0000

  /** `HashSet()`: no entries and no buckets. */
  function New<K(==)>(): (r: HashSet<K>)
    ensures Keys(r) == {} && |r.buckets| == 0 && r.entries.cap == 0
  {
    HashSet(AuVec.Empty(), [], 0)
  }

  /** The empty set satisfies the invariant whatever the hasher. */
  lemma NewValid<K>(hash: K -> nat)
    ensures Valid(New<K>(), hash)
  {
  }

  lemma Pow2Eight()
    ensures IsPow2(8) && IsPow2(16)
  {
    Pow2Double(1);
    Pow2Double(2);
    Pow2Double(4);
    Pow2Double(8);
  }

  /**
   `should_grow()`: at least 80% full, or no buckets yet. When it says no,
   the table has room for one more entry and still a free bucket.
   */
  function ShouldGrow<K>(s: HashSet<K>): (r: bool)
    ensures !r ==> |s.buckets| > 0
    ensures !r && |s.buckets| >= 8 ==> |s.entries.elems| + 1 < |s.buckets|
    ensures r && |s.buckets| > 0 ==> 4 * |s.buckets| <= 5 * |s.entries.elems|
  {
    |s.entries.elems| * 10 >= |s.buckets| * 8 || |s.buckets| == 0
  }

  /** `grow()`: 16 buckets the first time, twice as many after, every entry rehashed. */
  method Grow<K(==)>(s: HashSet<K>, hash: K -> nat) returns (t: HashSet<K>)
    requires Valid(s, hash) && 2 * |s.buckets| <= MAX_BUCKETS
    ensures Valid(t, hash) && t.entries == s.entries
    ensures |t.buckets| == if |s.buckets| == 0 then 16 else 2 * |s.buckets|
  {
    var newCap: nat := if |s.buckets| == 0 then 16 else 2 * |s.buckets|;
    Pow2Eight();
    if |s.buckets| > 0 {
      Pow2Double(|s.buckets|);
    }
    var bs := RehashBuckets(s.entries.elems, hash, newCap);
    t := HashSet(s.entries, bs, newCap - 1);
  }

  /** An entry index beyond the table's entries leaves the table as it was for longer entry arrays. */
  lemma {:induction false} TableExtend<K>(es: seq<K>, bs: seq<nat>, hash: K -> nat, key: K)
    requires Table(es, bs, hash, |es|, |es|)
    ensures Table(es + [key], bs, hash, |es|, |es|)
  {
    var es' := es + [key];
    forall q | 0 <= q < |bs| && bs[q] != INVALID && bs[q] < |es'|
      ensures ClearFor(es', bs, hash, q, -1)
    {
      assert ClearFor(es, bs, hash, q, -1);
      assert HomeOf(es', bs, hash, q) == HomeOf(es, bs, hash, q);
    }
  }

  /** Appending a key that is not yet present keeps the entries distinct and adds the key. */
  lemma {:induction false} AppendMembers<K>(es: seq<K>, key: K)
    requires Distinct(es) && key !in Members(es)
    ensures Distinct(es + [key]) && Members(es + [key]) == Members(es) + {key}
  {
    var es' := es + [key];
    forall x | x in Members(es) + {key}
      ensures x in Members(es')
    {
      if x == key {
        assert es'[|es|] == x;
      } else {
        var j :| 0 <= j < |es| && es[j] == x;
        assert es'[j] == x;
      }
    }
  }

  /**
   `insert(key)`: nothing if the key is present; otherwise grow when
   `should_grow()` says so, append the key as the last entry and index it.
   */
  method Insert<K(==)>(s: HashSet<K>, hash: K -> nat, key: K) returns (t: HashSet<K>, inserted: bool)
    requires Valid(s, hash) && |s.entries.elems| < MAX_ENTRIES
    ensures Valid(t, hash)
    ensures inserted <==> key !in Keys(s)
    ensures Keys(t) == Keys(s) + {key}
    ensures !inserted ==> t == s
    ensures inserted ==> t.entries.elems == s.entries.elems + [key]
  {
    var present := Contains(s, hash, key);
    if present {
      return s, false;
    }
    t := InsertAbsent(s, hash, key);
    inserted := true;
  }

  /** The part of `insert` after the key was found absent. */
  method InsertAbsent<K(==)>(s: HashSet<K>, hash: K -> nat, key: K) returns (t: HashSet<K>)
    requires Valid(s, hash) && |s.entries.elems| < MAX_ENTRIES && key !in Keys(s)
    ensures Valid(t, hash) && Keys(t) == Keys(s) + {key}
    ensures t.entries.elems == s.entries.elems + [key]
  {
    var u := s;
    if ShouldGrow(s) {
      u := Grow(s, hash);
    }
    var entries := AuVec.Push(u.entries, key);
    var bs := AppendEntry(u.entries.elems, u.buckets, hash, key);
    t := HashSet(entries, bs, u.mask);
    AppendMembers(s.entries.elems, key);
  }

  /** Index a key appended after the entries `es`. */
  method AppendEntry<K>(es: seq<K>, bs: seq<nat>, hash: K -> nat, key: K) returns (r: seq<nat>)
    requires Table(es, bs, hash, |es|, |es|) && |es| + 1 < |bs| <= U32_MOD
    ensures |r| == |bs| && Table(es + [key], r, hash, |es| + 1, |es| + 1)
  {
    TableExtend(es, bs, hash, key);
    r := InsertIntoBuckets(es + [key], bs, hash, |es|);
  }

  /**
   `reserve(n)`: nothing when the entry vector already holds `n`; otherwise
   reserve `n` entries and rehash into the smallest power-of-two bucket
   count, at least 8, that is at least `2n`.
   */
  method Reserve<K(==)>(s: HashSet<K>, hash: K -> nat, n: nat) returns (t: HashSet<K>)
    requires Valid(s, hash) && n <= MAX_ENTRIES
    ensures Valid(t, hash) && t.entries.elems == s.entries.elems && Keys(t) == Keys(s)
    ensures n <= s.entries.cap ==> t == s
    ensures n > s.entries.cap ==> t.entries.cap == n
    ensures n > s.entries.cap ==> IsPow2(|t.buckets|) && |t.buckets| >= 8 && |t.buckets| >= 2 * n
    ensures n > s.entries.cap ==> |t.buckets| == 8 || |t.buckets| < 4 * n
  {
    if n <= s.entries.cap {
      return s;
    }
    var entries := AuVec.Reserve(s.entries, n);
    var bucketsCap: nat := 8;
    Pow2Eight();
    while bucketsCap < n * 2
      invariant IsPow2(bucketsCap) && bucketsCap >= 8
      invariant bucketsCap == 8 || bucketsCap < 4 * n
      decreases 2 * n - bucketsCap
    {
      Pow2Double(bucketsCap);
      bucketsCap := bucketsCap * 2;
    }
    var bs := RehashBuckets(entries.elems, hash, bucketsCap);
    t := HashSet(entries, bs, bucketsCap - 1);
  }

  /** `HashSet(cap)`: an empty set after `reserve(cap)`. */
  method WithCapacity<K(==)>(hash: K -> nat, cap: nat) returns (t: HashSet<K>)
    requires cap <= MAX_ENTRIES
    ensures Valid(t, hash) && Keys(t) == {} && t.entries.cap == cap
    ensures cap > 0 ==> |t.buckets| >= 2 * cap
  {
    NewValid(hash);
    t := Reserve(New(), hash, cap);
  }

  /** `clear()`: no entries, the same buckets all freed, capacities kept. */
  function Clear<K(==)>(s: HashSet<K>, hash: K -> nat): (t: HashSet<K>)
    requires Valid(s, hash)
    ensures Valid(t, hash) && Keys(t) == {}
    ensures |t.buckets| == |s.buckets| && t.entries.cap == s.entries.cap && t.mask == s.mask
  {
    var entries := AuVec.Clear(s.entries);
    if |s.buckets| == 0 then HashSet(entries, s.buckets, s.mask)
    else
      EmptyTable(entries.elems, hash, |s.buckets|);
      HashSet(entries, AuVec.Fill(|s.buckets|, INVALID), s.mask)
  }

  /** `size()` counts the keys: distinct entries are as many as their values. */
  lemma {:induction false} SizeCountsKeys<K>(es: seq<K>)
    requires Distinct(es)
    ensures |Members(es)| == |es|
    decreases |es|
  {
    if |es| > 0 {
      var k := |es| - 1;
      var init := es[..k];
      assert Distinct(init) by {
        forall i, j | 0 <= i < k && 0 <= j < k && HashBase.EqualTo(init[i], init[j])
          ensures i == j
        {
          assert HashBase.EqualTo(es[i], es[j]);
        }
      }
      SizeCountsKeys(init);
      assert es == init + [es[k]];
      assert es[k] !in Members(init) by {
        if es[k] in Members(init) {
          var j :| 0 <= j < k && init[j] == es[k];
          assert HashBase.EqualTo(es[j], es[k]);
        }
      }
      assert Members(es) == Members(init) + {es[k]};
    }
  }

  /** `size()` and `empty()` on a valid set. */
  lemma {:induction false} SizeAndEmpty<K>(s: HashSet<K>, hash: K -> nat)
    requires Valid(s, hash)
    ensures |Keys(s)| == |s.entries.elems|
    ensures |s.entries.elems| == 0 <==> Keys(s) == {}
  {
    SizeCountsKeys(s.entries.elems);
  }
}
