/**
 `Option<T>` (`libauxid/include/auxid/containers/option.hpp`): a value or
 nothing, with a presence flag beside a union.

 The accessors `operator*` and `operator->` check presence only in debug
 builds; they are modelled as built with the check. `unwrap` and `expect`
 check in every build. A panic is a `Panicked` result carrying the message
 the source passes to `panic`.

 A moved-from payload is a caller-supplied `leftover` value: what a moved-from
 `T` holds is up to `T`.
 */
module AuOption {
  import opened Common

  /** `None` is what `Option()` and `Option(nullopt)` construct. */
  datatype Option<T> = None | Some(value: T)

  const DEREF_ON_NONE := "Option::operator* on None"
  const ARROW_ON_NONE := "Option::operator-> on None"
  const UNWRAP_ON_NONE := "Called unwrap() on None Option"

  /** Every empty option is the default-constructed one, and each checked accessor on it panics with its own message. */
  lemma {:induction false} EmptyOptionPanics<T>(o: Option<T>, msg: string)
    requires IsNone(o)
    ensures o == None && !HasValue(o)
    ensures Unwrap(o) == Panicked(UNWRAP_ON_NONE) && Deref(o) == Panicked(DEREF_ON_NONE)
    ensures Arrow(o) == Panicked(ARROW_ON_NONE) && Expect(o, msg) == Panicked(msg)
  {
  }

  /** `Option(const T&)` and `Option(T&&)`. */
  function Just<T>(v: T): (o: Option<T>)
    ensures HasValue(o)
    ensures Unwrap(o) == Returned(v)
  {
    Some(v)
  }

  /** `has_value()`. */
  predicate HasValue<T>(o: Option<T>) {
    o.Some?
  }

  /** `is_some()`. */
  predicate IsSome<T>(o: Option<T>) {
    o.Some?
  }

  /** `is_none()`. */
  predicate IsNone<T>(o: Option<T>) {
    !o.Some?
  }

  /** `explicit operator bool()`. */
  function ToBool<T>(o: Option<T>): bool {
    o.Some?
  }

  /** The presence queries agree, and an option has a value exactly when it was built from one. */
  lemma {:induction false} PresenceQueriesAgree<T>(o: Option<T>)
    ensures HasValue(o) == IsSome(o) == ToBool(o)
    ensures IsNone(o) == !HasValue(o)
    ensures HasValue(o) <==> exists v :: o == Just(v)
    ensures IsNone(o) <==> o == None
  {
    if o.Some? {
      assert o == Just(o.value);
    }
  }

  /** `operator*()` in a debug build. */
  function Deref<T>(o: Option<T>): (c: Checked<T>)
    ensures c.Returned? <==> HasValue(o)
    ensures c.Returned? ==> c.value == o.value
    ensures c.Panicked? ==> c.message == DEREF_ON_NONE
  {
    if !o.Some? then Panicked(DEREF_ON_NONE) else Returned(o.value)
  }

  /** `operator->()` in a debug build: the pointer reaches the held value. */
  function Arrow<T>(o: Option<T>): (c: Checked<T>)
    ensures c.Returned? <==> HasValue(o)
    ensures c.Returned? ==> c.value == o.value
    ensures c.Panicked? ==> c.message == ARROW_ON_NONE
  {
    if !o.Some? then Panicked(ARROW_ON_NONE) else Returned(o.value)
  }

  /** `unwrap()`, all three overloads: checked in every build. */
  function Unwrap<T>(o: Option<T>): (c: Checked<T>)
    ensures c.Returned? <==> HasValue(o)
    ensures c.Returned? ==> c.value == o.value
    ensures c.Panicked? ==> c.message == UNWRAP_ON_NONE
  {
    if !o.Some? then Panicked(UNWRAP_ON_NONE) else Returned(o.value)
  }

  /** `expect(msg)`: like `unwrap`, panicking with the caller's message. */
  function Expect<T>(o: Option<T>, msg: string): (c: Checked<T>)
    ensures c.Returned? <==> HasValue(o)
    ensures c.Returned? ==> c.value == o.value
    ensures c.Panicked? ==> c.message == msg
  {
    if !o.Some? then Panicked(msg) else Returned(o.value)
  }

  /** `value_or(def)`. */
  function ValueOr<T>(o: Option<T>, def: T): (r: T)
    ensures HasValue(o) ==> r == o.value
    ensures IsNone(o) ==> r == def
  {
    if o.Some? then o.value else def
  }

  /** `map(f)`: `Some(f(v))` from `Some(v)`, `nullopt` from nothing. */
  function Map<T, U>(o: Option<T>, f: T -> U): (r: Option<U>)
    ensures HasValue(r) == HasValue(o)
    ensures HasValue(o) ==> Unwrap(r) == Returned(f(o.value))
  {
    if o.Some? then Some(f(o.value)) else None
  }

  /** Every accessor succeeds exactly when there is a value, and then they all agree with `value_or`. */
  lemma {:induction false} AccessorsAgree<T>(o: Option<T>, msg: string, def: T)
    ensures Deref(o).Returned? == Arrow(o).Returned? == Unwrap(o).Returned? == Expect(o, msg).Returned?
    ensures Unwrap(o).Returned? ==>
              Deref(o).value == Arrow(o).value == Unwrap(o).value == Expect(o, msg).value == ValueOr(o, def)
  {
  }

  /** Mapping the identity changes nothing; mapping twice is mapping the composition. */
  lemma {:induction false} MapLaws<T, U, V>(o: Option<T>, f: T -> U, g: U -> V)
    ensures Map(o, x => x) == o
    ensures Map(Map(o, f), g) == Map(o, x => g(f(x)))
  {
  }

  /** `reset()` and `operator=(nullopt)`: the value, if any, is destroyed and the flag cleared. */
  function Reset<T>(o: Option<T>): (r: Option<T>)
    ensures IsNone(r)
    ensures Unwrap(r) == Panicked(UNWRAP_ON_NONE)
  {
    None
  }

  lemma {:induction false} ResetIdempotent<T>(o: Option<T>)
    ensures Reset(Reset(o)) == Reset(o)
    ensures Reset(o) == None
  {
  }

  /**
   `operator=(const Option&)`. `aliased` says `other` is this very object:
   nothing happens. Otherwise a held value is assigned or constructed, and
   an empty `other` resets the target.
   */
  function CopyAssign<T>(target: Option<T>, other: Option<T>, aliased: bool): (r: Option<T>)
    requires aliased ==> target == other
    ensures HasValue(r) == HasValue(other)
    ensures Unwrap(r).Returned? ==> Unwrap(r) == Unwrap(other)
    ensures aliased ==> r == target
  {
    if aliased then target
    else if other.Some? then Some(other.value)
    else Reset(target)
  }

  /** The state `other` is left in after its value was moved out: still flagged, holding `leftover`. */
  function MovedFrom<T>(other: Option<T>, leftover: T): (r: Option<T>)
    ensures HasValue(r) == HasValue(other)
  {
    if other.Some? then Some(leftover) else None
  }

  /**
   `operator=(Option&&)`: the target ends as copy assignment would leave it;
   `other` keeps its presence flag but holds the moved-from `leftover`.
   */
  function MoveAssign<T>(target: Option<T>, other: Option<T>, aliased: bool, leftover: T): (r: (Option<T>, Option<T>))
    requires aliased ==> target == other
    ensures r.0 == CopyAssign(target, other, aliased)
    ensures HasValue(r.1) == HasValue(other)
    ensures aliased ==> r == (target, other)
  {
    if aliased then (target, other)
    else (CopyAssign(target, other, false), MovedFrom(other, leftover))
  }

  /** `Option(Option&&)`: the new option equals the source, which keeps its flag and a moved-from payload. */
  function MoveConstruct<T>(other: Option<T>, leftover: T): (r: (Option<T>, Option<T>))
    ensures r.0 == other
    ensures HasValue(r.1) == HasValue(other)
  {
    (if other.Some? then Some(other.value) else None, MovedFrom(other, leftover))
  }

  /**
   Whatever the target held, assignment from a different object leaves the
   target equal to the source, and assigning an empty option is a reset.
   */
  lemma {:induction false} AssignmentTakesSource<T>(target: Option<T>, other: Option<T>, leftover: T)
    ensures CopyAssign(target, other, false) == other
    ensures MoveAssign(target, other, false, leftover).0 == other
    ensures CopyAssign(target, None, false) == Reset(target)
  {
  }
}
