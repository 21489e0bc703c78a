/**
 `VecT<T, size_type>` (`include/auxid/containers/vec.hpp`): a growable array
 with an explicit capacity. `Vec` uses a 64-bit size type, `CompactVec` a
 32-bit one and `TinyVec` a 16-bit one.

 A vector is its elements plus its capacity; where the memory lives, and
 whether `reserve` grew it in place or moved it, is not modelled.
 */
module AuVec {
  import opened Common

  datatype Vec<T> = Vec(elems: seq<T>, cap: nat)

  /** Size within capacity: the one invariant every operation keeps. */
  predicate Valid<T>(v: Vec<T>) {
    |v.elems| <= v.cap
  }

  /** `VecT()`: no storage. */
  function Empty<T>(): (r: Vec<T>)
    ensures Valid(r) && r.elems == [] && r.cap == 0
  {
    Vec([], 0)
  }

  /** `reserve(n)`: nothing when `n` already fits; otherwise capacity exactly `n`, elements kept in order. */
  function Reserve<T>(v: Vec<T>, n: nat): (r: Vec<T>)
    requires Valid(v)
    ensures Valid(r) && r.elems == v.elems
    ensures r.cap == (if n <= v.cap then v.cap else n)
  {
    if n <= v.cap then v else Vec(v.elems, n)
  }

  /** `VecT(initial_capacity)`. */
  function WithCapacity<T>(n: nat): (r: Vec<T>)
    ensures Valid(r) && r.elems == [] && r.cap == n
  {
    Reserve(Empty(), n)
  }

  /** `VecT{a, b, ...}`: reserve the list's length, then copy (or push) every item. */
  function FromList<T>(init: seq<T>): (r: Vec<T>)
    ensures Valid(r) && r.elems == init && r.cap == |init|
  {
    var v := Reserve(Empty<T>(), |init|);
    Vec(init, v.cap)
  }

  /**
   `grow()` in unbounded arithmetic: 8 for an empty vector, otherwise half as
   much again plus one. This is the growth the size type has room for.
   */
  function Grow(cap: nat): (r: nat)
    ensures r > cap
    ensures cap == 0 ==> r == 8
    ensures 2 * r >= 3 * cap
  {
    if cap == 0 then 8 else cap + cap / 2 + 1
  }

  /**
   `push_back` / `push` / `emplace_back`: grow only when full, then place the
   value last. Earlier elements do not move.
   */
  function Push<T>(v: Vec<T>, x: T): (r: Vec<T>)
    requires Valid(v)
    ensures Valid(r) && r.elems == v.elems + [x]
    ensures |v.elems| < v.cap ==> r.cap == v.cap
    ensures |v.elems| == v.cap ==> r.cap == Grow(v.cap)
  {
    var w := if |v.elems| >= v.cap then Reserve(v, Grow(v.cap)) else v;
    Vec(w.elems + [x], w.cap)
  }

  /** `pop` / `pop_back`: drop the last element, or nothing when empty. Capacity stays. */
  function Pop<T>(v: Vec<T>): (r: Vec<T>)
    requires Valid(v)
    ensures Valid(r) && r.cap == v.cap
    ensures |v.elems| > 0 ==> r.elems == v.elems[..|v.elems| - 1]
    ensures |v.elems| == 0 ==> r == v
  {
    if |v.elems| > 0 then Vec(v.elems[..|v.elems| - 1], v.cap) else v
  }

  /** `clear`: no elements, same capacity. */
  function Clear<T>(v: Vec<T>): (r: Vec<T>)
    requires Valid(v)
    ensures Valid(r) && r.elems == [] && r.cap == v.cap
  {
    Vec([], v.cap)
  }

  /**
   `resize(n, fill)` (and `resize(n)` with `fill` the value-initialised
   element): keep the first `min(size, n)` elements, fill any new slots,
   reserving exactly `n` when it does not fit.
   */
  function Resize<T>(v: Vec<T>, n: nat, fill: T): (r: Vec<T>)
    requires Valid(v)
    ensures Valid(r) && |r.elems| == n
    ensures n <= |v.elems| ==> r.elems == v.elems[..n] && r.cap == v.cap
    ensures n > |v.elems| ==> r.elems[..|v.elems|] == v.elems
    ensures forall i :: |v.elems| <= i < n ==> r.elems[i] == fill
    ensures r.cap == (if n > v.cap then n else v.cap)
  {
    if n > |v.elems| then
      var w := if n > v.cap then Reserve(v, n) else v;
      Vec(w.elems + Fill(n - |v.elems|, fill), w.cap)
    else Vec(v.elems[..n], v.cap)
  }

  /** `k` copies of `x`. */
  function Fill<T>(k: nat, x: T): (r: seq<T>)
    ensures |r| == k && forall i :: 0 <= i < k ==> r[i] == x
  {
    seq(k, _ => x)
  }

  /** `operator[]` in a debug build: the element, or a panic past the end. */
  function At<T>(v: Vec<T>, i: nat): (r: Checked<T>)
    ensures r.Returned? <==> i < |v.elems|
    ensures r.Returned? ==> r.value == v.elems[i]
    ensures r.Panicked? ==> r.message == "VecT index out of bounds"
  {
    if i >= |v.elems| then Panicked("VecT index out of bounds") else Returned(v.elems[i])
  }

  /** `back()`: the last element (no check in the source, so the caller must know it is non-empty). */
  function Back<T>(v: Vec<T>): (r: T)
    requires |v.elems| > 0
    ensures r == v.elems[|v.elems| - 1]
    ensures At(v, |v.elems| - 1) == Returned(r)
  {
    v.elems[|v.elems| - 1]
  }

  /** Move construction: the target takes elements and capacity, the source is left empty with no storage. */
  function Move<T>(source: Vec<T>): (r: (Vec<T>, Vec<T>))
    ensures r.0 == source && r.1 == Empty()
  {
    (source, Empty())
  }

  /** Copy construction and `clone`: the same elements in a block of exactly their number. */
  function Copy<T>(source: Vec<T>): (r: Vec<T>)
    requires Valid(source)
    ensures Valid(r) && r.elems == source.elems && r.cap == |source.elems|
  {
    Vec(source.elems, Reserve(Empty<T>(), |source.elems|).cap)
  }

  /** Copy assignment: clear, reserve the source's size, copy. */
  function CopyAssign<T>(target: Vec<T>, source: Vec<T>): (r: Vec<T>)
    requires Valid(target) && Valid(source)
    ensures Valid(r) && r.elems == source.elems
    ensures r.cap >= target.cap
  {
    var w := Reserve(Clear(target), |source.elems|);
    Vec(source.elems, w.cap)
  }

  /** Popping undoes pushing; the capacity stays wherever the push left it. */
  lemma {:induction false} PushThenPop<T>(v: Vec<T>, x: T)
    requires Valid(v)
    ensures Pop(Push(v, x)).elems == v.elems
    ensures |v.elems| < v.cap ==> Pop(Push(v, x)) == v
  {
    var p := Push(v, x);
    assert p.elems[..|p.elems| - 1] == v.elems;
  }

  /** Shrinking then growing back with the same fill keeps the kept prefix and refills the rest. */
  lemma {:induction false} ResizeDownUp<T>(v: Vec<T>, n: nat, fill: T)
    requires Valid(v) && n <= |v.elems|
    ensures Resize(Resize(v, n, fill), |v.elems|, fill).elems == v.elems[..n] + Fill(|v.elems| - n, fill)
  {
  }

  /**
   Pushing the items of `xs` one at a time onto an empty vector gives exactly
   `xs`, with a capacity from the growth sequence 0, 8, 13, 20, ...
   */
  method PushAll<T>(xs: seq<T>) returns (v: Vec<T>)
    ensures Valid(v) && v.elems == xs
    ensures v.cap == GrowthCap(|xs|)
  {
    v := Empty();
    var i := 0;
    while i < |xs|
      invariant 0 <= i <= |xs|
      invariant Valid(v) && v.elems == xs[..i]
      invariant v.cap == GrowthCap(i)
    {
      assert xs[..i + 1] == xs[..i] + [xs[i]];
      v := Push(v, xs[i]);
      i := i + 1;
    }
    assert xs[..|xs|] == xs;
  }

  /** The capacity of a vector built by `n` pushes from empty: grown only when full. */
  function GrowthCap(n: nat): (r: nat)
    ensures n <= r
    ensures n > 0 ==> r >= 8
    decreases n
  {
    if n == 0 then 0
    else
      var c := GrowthCap(n - 1);
      if n - 1 == c then Grow(c) else c
  }

  /** From empty, nine pushes are the first that reallocate after the first one. */
  lemma GrowthCapSmall()
    ensures GrowthCap(1) == 8 && GrowthCap(8) == 8 && GrowthCap(9) == 13
  {
    assert GrowthCap(1) == 8;
    assert GrowthCap(2) == 8;
    assert GrowthCap(3) == 8;
    assert GrowthCap(4) == 8;
    assert GrowthCap(5) == 8;
    assert GrowthCap(6) == 8;
    assert GrowthCap(7) == 8;
  }

  // ---------------------------------------------------------------------------
  // The size type's width: what `grow` does as written
  // ---------------------------------------------------------------------------

  /**
   `grow()` as written for a size type of `width` values: the sum is taken in
   the size type, so it wraps (for `TinyVec` the `u16` operands are promoted,
   but the result is narrowed back to `u16`).
   */
  function GrowAsWritten(cap: nat, width: nat): (r: nat)
    requires width > 0
    ensures cap == 0 ==> r == Grow(cap)
    ensures cap > 0 ==> r < width
    ensures cap > 0 ==> (r == Grow(cap) <==> cap + cap / 2 + 1 < width)
  {
    if cap == 0 then 8
    else
      var sum := cap + cap / 2 + 1;
      if sum < width then
        SmallModulo(sum, width);
        sum % width
      else
        sum % width
  }

  /** What `emplace_back` as written does on a full vector: grow and write, or write past the end of the block. */
  datatype PushResult<T> = Pushed(v: Vec<T>) | WritesPastCapacity

  /**
   `emplace_back` as written: a vector with room, or one whose grown capacity
   is larger, takes the value last; a full one whose wrapped capacity does not
   grow writes past its block.
   */
  function PushAsWritten<T>(v: Vec<T>, x: T, width: nat): (r: PushResult<T>)
    requires Valid(v) && width > 0
    ensures r.WritesPastCapacity? <==> |v.elems| == v.cap && GrowAsWritten(v.cap, width) <= v.cap
    ensures r.Pushed? ==> Valid(r.v) && r.v.elems == v.elems + [x] && r.v.cap >= v.cap
    ensures |v.elems| < v.cap ==> r == Pushed(Vec(v.elems + [x], v.cap))
  {
    var w := if |v.elems| >= v.cap then Reserve(v, GrowAsWritten(v.cap, width)) else v;
    if |w.elems| >= w.cap then WritesPastCapacity else Pushed(Vec(w.elems + [x], w.cap))
  }

  /** Below the wrap point the code as written is the model above. */
  lemma {:induction false} PushAsWrittenAgrees<T>(v: Vec<T>, x: T, width: nat)
    requires Valid(v) && width > 0
    requires v.cap == 0 || v.cap + v.cap / 2 + 1 < width
    ensures PushAsWritten(v, x, width) == Pushed(Push(v, x))
  {
    if v.cap > 0 {
      SmallModulo(v.cap + v.cap / 2 + 1, width);
    }
    assert GrowAsWritten(v.cap, width) == Grow(v.cap);
  }


  /** A full `TinyVec` of 43690 elements does not grow: the new capacity wraps to 0 and the push writes past the block. */
  lemma TinyVecGrowthWraps<T>(xs: seq<T>, x: T)
    requires |xs| == 43690
    ensures GrowAsWritten(43690, U16_MOD) == 0
    ensures PushAsWritten(Vec(xs, 43690), x, U16_MOD) == WritesPastCapacity
  {
  }

  /** Once `cap + cap/2 + 1` reaches the size type's range, growing as written never increases the capacity. */
  lemma {:induction false} GrowAsWrittenStalls(cap: nat, width: nat)
    requires 0 < cap < width <= cap + cap / 2 + 1
    ensures GrowAsWritten(cap, width) <= cap
  {
    var s := cap + cap / 2 + 1;
    assert s < 2 * width;
    ModOnce(s, width);
  }
}
