/**
 The slice of the compiler frontend's expression tree that the two dataflow
 analyses inspect. Each CFG element is one node of this tree; the frontend has
 already split compound expressions into their sub-expressions, so an
 analysis looks at one node (and, for assignments, the right-hand side).

 Variables are identified by a stable declaration handle, never by name.
 */
module CfgAst {

  /** Opaque identity of a `VarDecl` (the source keys its maps by the declaration pointer). */
  type VarId = nat

  /** Opaque identity of a call's callee; what it names is asked of a `Frontend`. */
  type CalleeId = nat

  datatype Expr =
    /** `DeclRefExpr` whose declaration is a `VarDecl`; `localStorage` is `hasLocalStorage()`. */
    | VarRef(id: VarId, localStorage: bool)
    /** A `BinaryOperator` with `isAssignmentOp()`: `=`, `+=`, `-=`, ... */
    | Assign(lhs: Expr, rhs: Expr)
    /** `CallExpr` (including operator calls). */
    | Call(callee: CalleeId, args: seq<Expr>)
    /** `CXXDeleteExpr`. */
    | Delete(arg: Expr)
    /** `ReturnStmt` with a value. */
    | Return(value: Expr)
    /** `ReturnStmt` without a value (`getRetValue()` is null). */
    | ReturnVoid
    /** `UnaryOperator` with opcode `UO_Deref`. */
    | Deref(sub: Expr)
    /** `MemberExpr` with `isArrow()`. */
    | Arrow(base: Expr)
    /** `MemberExpr` without `isArrow()`. */
    | Dot(base: Expr)
    /** `ArraySubscriptExpr`. */
    | Subscript(base: Expr, index: Expr)
    /** `ParenExpr`. */
    | Paren(inner: Expr)
    /** `ImplicitCastExpr`. */
    | ImplicitCast(inner: Expr)
    /** Every other node: literals, other unary/binary operators, declarations, references to non-variables. */
    | Other

  /**
   The two questions the analyses ask the frontend about things they cannot
   see: whether a callee is `std::<name>` (`utils::is_std_call`) and whether
   a variable's type is cheap to copy (`utils::is_cheap_to_copy`).
   */
  datatype Frontend = Frontend(isStdCall: (CalleeId, string) -> bool, cheapToCopy: VarId -> bool)

  /** `IgnoreParenImpCasts()`: strip every enclosing `ParenExpr` and `ImplicitCastExpr`. */
  function Strip(e: Expr): (r: Expr)
    ensures !r.Paren? && !r.ImplicitCast?
    ensures r.VarRef? ==> ReachesByWrappers(e, r)
    decreases e
  {
    match e
    case Paren(inner) => Strip(inner)
    case ImplicitCast(inner) => Strip(inner)
    case _ => e
  }

  /** `r` is reached from `e` by peeling only parentheses and implicit casts. */
  predicate ReachesByWrappers(e: Expr, r: Expr)
    decreases e
  {
    e == r
    || (e.Paren? && ReachesByWrappers(e.inner, r))
    || (e.ImplicitCast? && ReachesByWrappers(e.inner, r))
  }

  /** The variable an operand names once wrappers are stripped, if it is a bare variable reference. */
  function BareVar(e: Expr): (r: Option<VarId>)
    ensures r.Some? <==> Strip(e).VarRef?
    ensures r.Some? ==> Strip(e).id == r.value
  {
    match Strip(e)
    case VarRef(v, _) => Some(v)
    case _ => None
  }

  datatype Option<T> = None | Some(value: T)

  lemma {:induction false} StripIdempotent(e: Expr)
    ensures Strip(Strip(e)) == Strip(e)
  {
  }

  lemma {:induction false} StripSeesThroughWrappers(e: Expr)
    ensures Strip(Paren(e)) == Strip(e)
    ensures Strip(ImplicitCast(e)) == Strip(e)
    ensures Strip(Paren(ImplicitCast(Paren(e)))) == Strip(e)
  {
  }
}
