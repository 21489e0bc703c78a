/**
 `ResultT<T, E>` and its helpers (`include/auxid/pch.hpp`, and the move-only
 copy of the same class in `libauxid/include/auxid/pch.hpp`): a tagged union
 of a value and an error, `fail(e)` to build the error side, and the
 `AU_TRY` family of early-return macros.

 `unwrap` and `unwrap_err` check the tag in every build; a panic is a
 `Panicked` result with the message the source passes to `panic`.
 */
module AuResult {
  import opened Common

  datatype Result<T, E> = Ok(value: T) | Err(error: E)

  /** `Unexpected<E>`: the wrapper `fail` returns, convertible to any `ResultT<_, E>`. */
  datatype Unexpected<E> = Unexpected(val: E)

  /** `ResultT<void, E>`: the value side carries nothing. */
  type VoidResult<E> = Result<(), E>

  const UNWRAP_ON_ERR := "Called unwrap() on an Error Result"
  const UNWRAP_ERR_ON_OK := "Called unwrap_err() on an Ok Result"

  /** `fail(e)`. */
  function Fail<E>(e: E): (r: Unexpected<E>)
    ensures r.val == e
  {
    Unexpected(e)
  }

  /** `ResultT(val)`, by copy or by move. */
  function FromValue<T, E>(v: T): (r: Result<T, E>)
    ensures IsOk(r) && Unwrap(r) == Returned(v)
  {
    Ok(v)
  }

  /** `ResultT(Unexpected&&)`: the error side, holding what `fail` was given. */
  function FromUnexpected<T, E>(u: Unexpected<E>): (r: Result<T, E>)
    ensures IsErr(r) && UnwrapErr(r) == Returned(u.val)
  {
    Err(u.val)
  }

  /** `ResultT<void, E>()`: success. */
  function VoidOk<E>(): (r: VoidResult<E>)
    ensures IsOk(r) && Unwrap(r) == Returned(())
  {
    Ok(())
  }

  /** `is_ok()`. */
  predicate IsOk<T, E>(r: Result<T, E>) {
    r.Ok?
  }

  /** `is_err()`. */
  predicate IsErr<T, E>(r: Result<T, E>) {
    !r.Ok?
  }

  /** `has_value()`. */
  predicate HasValue<T, E>(r: Result<T, E>) {
    r.Ok?
  }

  /** `operator bool`. */
  function ToBool<T, E>(r: Result<T, E>): bool {
    r.Ok?
  }

  /** `is_err` is the negation of `is_ok`; `has_value` and `bool` are `is_ok`. */
  lemma {:induction false} TagQueriesAgree<T, E>(r: Result<T, E>)
    ensures IsErr(r) == !IsOk(r)
    ensures HasValue(r) == ToBool(r) == IsOk(r)
    ensures IsOk(r) <==> exists v :: r == FromValue(v)
    ensures IsErr(r) <==> exists e :: r == FromUnexpected(Fail(e))
  {
    match r
    case Ok(v) => assert r == FromValue(v);
    case Err(e) => assert r == FromUnexpected(Fail(e));
  }

  /** `unwrap()` (and `operator*`, `operator->`, which call it). */
  function Unwrap<T, E>(r: Result<T, E>): (c: Checked<T>)
    ensures c.Returned? <==> IsOk(r)
    ensures c.Returned? ==> c.value == r.value
    ensures c.Panicked? ==> c.message == UNWRAP_ON_ERR
  {
    if !r.Ok? then Panicked(UNWRAP_ON_ERR) else Returned(r.value)
  }

  /** `unwrap_err()` (and `err()`, `error()`, which call it). */
  function UnwrapErr<T, E>(r: Result<T, E>): (c: Checked<E>)
    ensures c.Returned? <==> IsErr(r)
    ensures c.Returned? ==> c.value == r.error
    ensures c.Panicked? ==> c.message == UNWRAP_ERR_ON_OK
  {
    if r.Ok? then Panicked(UNWRAP_ERR_ON_OK) else Returned(r.error)
  }

  /** Exactly one of `unwrap` and `unwrap_err` succeeds. */
  lemma {:induction false} ExactlyOneSideUnwraps<T, E>(r: Result<T, E>)
    ensures Unwrap(r).Returned? != UnwrapErr(r).Returned?
  {
  }

  /**
   Copy assignment. `aliased` says `other` is this very object: nothing
   happens. Otherwise: same tag, assign the payload; different tag, destroy
   the old payload, construct the other side and take `other`'s tag.
   */
  function CopyAssign<T, E>(target: Result<T, E>, other: Result<T, E>, aliased: bool): (r: Result<T, E>)
    requires aliased ==> target == other
    ensures IsOk(r) == IsOk(other)
    ensures Unwrap(r) == Unwrap(other) && UnwrapErr(r) == UnwrapErr(other)
    ensures aliased ==> r == target
  {
    if aliased then target
    else if target.Ok? && other.Ok? then Ok(other.value)
    else if !target.Ok? && !other.Ok? then Err(other.error)
    else if target.Ok? then Err(other.error)
    else Ok(other.value)
  }

  /**
   Move assignment: the same cases, moving out of `other`, which keeps its tag
   and is left holding the moved-from payload `leftoverVal` or `leftoverErr`.
   */
  function MoveAssign<T, E>(target: Result<T, E>, other: Result<T, E>, aliased: bool, leftoverVal: T, leftoverErr: E): (r: (Result<T, E>, Result<T, E>))
    requires aliased ==> target == other
    ensures r.0 == CopyAssign(target, other, aliased)
    ensures IsOk(r.1) == IsOk(other)
    ensures aliased ==> r == (target, other)
  {
    if aliased then (target, other)
    else (CopyAssign(target, other, false), MovedFrom(other, leftoverVal, leftoverErr))
  }

  /** Move construction (the only copy-like constructor of the move-only variant, and of `ResultT<void, E>`). */
  function MoveConstruct<T, E>(other: Result<T, E>, leftoverVal: T, leftoverErr: E): (r: (Result<T, E>, Result<T, E>))
    ensures r.0 == other
    ensures IsOk(r.1) == IsOk(other)
  {
    (other, MovedFrom(other, leftoverVal, leftoverErr))
  }

  /** What a result looks like after its payload was moved out: same tag, leftover payload. */
  function MovedFrom<T, E>(other: Result<T, E>, leftoverVal: T, leftoverErr: E): Result<T, E> {
    if other.Ok? then Ok(leftoverVal) else Err(leftoverErr)
  }

  /** Whatever the target held, assignment (copy or move) leaves the target equal to the source. */
  lemma {:induction false} AssignmentTakesSource<T, E>(target: Result<T, E>, other: Result<T, E>, lv: T, le: E)
    ensures CopyAssign(target, other, false) == other
    ensures MoveAssign(target, other, false, lv, le).0 == other
  {
    match other
    case Ok(v) => assert Unwrap(CopyAssign(target, other, false)) == Returned(v);
    case Err(e) => assert UnwrapErr(CopyAssign(target, other, false)) == Returned(e);
  }

  // ---------------------------------------------------------------------------
  // AU_TRY, AU_TRY_DISCARD and AU_TRY_PURE
  // ---------------------------------------------------------------------------

  /** How control leaves one `AU_TRY`: with the value, or by returning `fail(err)` from the enclosing function. */
  datatype Step<T, E> = Continue(value: T) | ReturnFail(failure: Unexpected<E>)

  /** `AU_TRY(expr)`. */
  function Try<T, E>(res: Result<T, E>): (s: Step<T, E>)
    ensures s.Continue? <==> IsOk(res)
    ensures s.Continue? ==> Unwrap(res) == Returned(s.value)
    ensures s.ReturnFail? ==> UnwrapErr(res) == Returned(s.failure.val)
  {
    if IsErr(res) then ReturnFail(Fail(res.error)) else Continue(res.value)
  }

  /** `AU_TRY_DISCARD(expr)` and `AU_TRY_PURE(expr)`: the value is dropped. */
  function TryDiscard<T, E>(res: Result<T, E>): (s: Step<(), E>)
    ensures s.Continue? <==> IsOk(res)
    ensures s.ReturnFail? ==> s == ReturnFail(Fail(res.error))
  {
    if IsErr(res) then ReturnFail(Fail(res.error)) else Continue(())
  }

  /**
   A function whose body is `auto x = AU_TRY(res); return rest(x);`: an error
   from `res` becomes this function's result through `fail`.
   */
  function Then<T, U, E>(res: Result<T, E>, rest: T -> Result<U, E>): (r: Result<U, E>)
    ensures IsErr(res) ==> IsErr(r) && UnwrapErr(r) == UnwrapErr(res)
    ensures IsOk(res) ==> r == rest(res.value)
  {
    match Try(res)
    case Continue(v) => rest(v)
    case ReturnFail(u) => FromUnexpected(u)
  }

  /**
   `AU_TRY` sequencing behaves like monadic bind: a successful value is passed
   on unchanged, returning the value straight back changes nothing, and
   nesting associates.
   */
  lemma {:induction false} ThenLaws<T, U, V, E>(v: T, res: Result<T, E>, f: T -> Result<U, E>, g: U -> Result<V, E>)
    ensures Then(FromValue(v), f) == f(v)
    ensures Then(res, x => FromValue(x)) == res
    ensures Then(Then(res, f), g) == Then(res, x => Then(f(x), g))
  {
    match res
    case Ok(x) =>
    case Err(e) =>
      assert Then(res, x => FromValue(x)) == Err(e);
  }

  /** `AU_TRY_DISCARD` followed by `rest` runs `rest` exactly when `AU_TRY` would, and fails the same way otherwise. */
  lemma {:induction false} DiscardAgreesWithTry<T, U, E>(res: Result<T, E>, rest: Result<U, E>)
    ensures TryDiscard(res).Continue? == Try(res).Continue?
    ensures TryDiscard(res).ReturnFail? ==> TryDiscard(res).failure == Try(res).failure
    ensures Then(res, _ => rest) == (if IsOk(res) then rest else Err(res.error))
  {
  }
}
