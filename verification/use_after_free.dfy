/**
 The use-after-free analysis (`Validator/src/cpp/use_after_free.cpp`).

 The state maps a pointer variable to `Valid` or `Dangling`; a missing entry
 means `Valid`. The visitor checks uses against the state before the
 element, collects the pointers to kill (after `delete p` or `free(p)`) and
 to revive (after `p = ...`), and `commit` writes the kills and then erases
 the revivals.

 A report carries the message template the source formats, with `{}` where
 the variable's name goes, and the variable it names.
 */
module UseAfterFree {
  import opened CfgAst

  datatype PtrStatus = Valid | Dangling

  /** `UAFState`: the map from declaration to status. */
  datatype State = State(pointers: map<VarId, PtrStatus>)

  datatype Report = Report(message: string, variable: VarId)

  /** The `delete` message; its closing quote is missing in the source, and it is kept that way. */
  const DOUBLE_FREE_DELETE := "Detected double free of '{}"
  const DOUBLE_FREE_CALL := "Detected double free of '{}'"

  /** The context strings `visit` passes to `check_use`. */
  const PASSED_DANGLING := "Passed dangling pointer to function"
  const ASSIGN_READ := "Read of dangling pointer value during assignment"
  const RETURNED_DANGLING := "Returned dangling pointer"
  const DEREF_DANGLING := "Dereference of dangling pointer"
  const ARROW_DANGLING := "Member access via dangling pointer"
  const INDEX_DANGLING := "Array indexing of dangling pointer"

  /** What `check_use` formats: the context, then the quoted name. */
  function UseMessage(context: string): string {
    context + " '{}'"
  }

  /** What one visit collects: `m_vars_to_kill`, `m_vars_to_revive`, and the reports it emitted. */
  datatype Staged = Staged(toKill: seq<VarId>, toRevive: seq<VarId>, reports: seq<Report>)

  datatype Outcome = Outcome(state: State, reports: seq<Report>)

  const NOTHING: Staged := Staged([], [], [])

  predicate IsDangling(s: State, v: VarId) {
    v in s.pointers && s.pointers[v] == Dangling
  }

  function DanglingSet(s: State): set<VarId> {
    set v | v in s.pointers && s.pointers[v] == Dangling
  }

  /** The sparse-map convention: only `Dangling` is ever stored. */
  predicate OnlyDangling(s: State) {
    forall v :: v in s.pointers ==> s.pointers[v] == Dangling
  }

  /** `get_initial_state()`: an empty map. */
  function InitialState(): (s: State)
    ensures DanglingSet(s) == {} && OnlyDangling(s)
    ensures forall v :: !IsDangling(s, v)
  {
    State(map[])
  }

  /** `check_use(expr, context)`: one report iff the stripped expression is a bare reference to a dangling variable. */
  function CheckUse(st: State, e: Expr, context: string): (r: seq<Report>)
    ensures |r| <= 1
    ensures |r| == 1 <==> BareVar(e).Some? && IsDangling(st, BareVar(e).value)
    ensures |r| == 1 ==> r[0] == Report(UseMessage(context), BareVar(e).value)
  {
    match Strip(e)
    case VarRef(v, _) => if IsDangling(st, v) then [Report(UseMessage(context), v)] else []
    case _ => []
  }

  /** The argument scan of a call: `check_use(arg, "Passed dangling pointer to function")` for each argument in turn. */
  function ScanArgs(st: State, args: seq<Expr>): (r: seq<Report>)
    ensures |r| <= |args|
    ensures forall i :: 0 <= i < |r| ==> r[i].message == UseMessage(PASSED_DANGLING) && IsDangling(st, r[i].variable)
    ensures forall i :: 0 <= i < |args| && BareVar(args[i]).Some? && IsDangling(st, BareVar(args[i]).value) ==>
              Report(UseMessage(PASSED_DANGLING), BareVar(args[i]).value) in r
    decreases |args|
  {
    if |args| == 0 then []
    else
      var rest := ScanArgs(st, args[1..]);
      assert forall i :: 1 <= i < |args| ==> args[i] == args[1..][i - 1];
      CheckUse(st, args[0], PASSED_DANGLING) + rest
  }

  /** The source's `for` loop over `call->arguments()` emits the same reports in the same order. */
  method ScanArgsLoop(st: State, args: seq<Expr>) returns (reports: seq<Report>)
    ensures reports == ScanArgs(st, args)
  {
    reports := [];
    var i := 0;
    while i < |args|
      invariant 0 <= i <= |args|
      invariant reports + ScanArgs(st, args[i..]) == ScanArgs(st, args)
    {
      assert args[i..][1..] == args[i + 1..];
      assert ScanArgs(st, args[i..]) == CheckUse(st, args[i], PASSED_DANGLING) + ScanArgs(st, args[i + 1..]);
      reports := reports + CheckUse(st, args[i], PASSED_DANGLING);
      i := i + 1;
    }
  }

  /** The double-free check and kill shared by `delete p` and `free(p)`. */
  function Release(st: State, v: VarId, message: string): (r: Staged)
    ensures r.toKill == [v] && r.toRevive == []
    ensures |r.reports| == 1 <==> IsDangling(st, v)
    ensures forall i :: 0 <= i < |r.reports| ==> r.reports[i] == Report(message, v)
  {
    Staged([v], [], if IsDangling(st, v) then [Report(message, v)] else [])
  }

  /**
   `UAFVisitor::visit`: a `delete` or `free` of a bare variable kills it;
   every other call scans its arguments; an assignment visits its right-hand
   side, checks it as a read and revives its left-hand side; `return`, `*`,
   `->` and `[]` check their operand.
   */
  function Visit(fe: Frontend, st: State, e: Expr): (r: Staged)
    ensures |r.toKill| <= 1
    ensures forall i :: 0 <= i < |r.reports| ==> IsDangling(st, r.reports[i].variable)
    ensures !e.Assign? ==> r.toRevive == []
    decreases e
  {
    match e
    case Delete(arg) =>
      (match BareVar(arg)
       case Some(v) => Release(st, v, DOUBLE_FREE_DELETE)
       case None => NOTHING)
    case Call(callee, args) =>
      if fe.isStdCall(callee, "free") && |args| > 0 && BareVar(args[0]).Some?
      then Release(st, BareVar(args[0]).value, DOUBLE_FREE_CALL)
      else Staged([], [], ScanArgs(st, args))
    case Assign(lhs, rhs) =>
      var inner := Visit(fe, st, rhs);
      var read := CheckUse(st, rhs, ASSIGN_READ);
      var revive := match BareVar(lhs) case Some(v) => [v] case None => [];
      Staged(inner.toKill, inner.toRevive + revive, inner.reports + read)
    case Return(value) => Staged([], [], CheckUse(st, value, RETURNED_DANGLING))
    case Deref(sub) => Staged([], [], CheckUse(st, sub, DEREF_DANGLING))
    case Arrow(base) => Staged([], [], CheckUse(st, base, ARROW_DANGLING))
    case Subscript(base, _) => Staged([], [], CheckUse(st, base, INDEX_DANGLING))
    case _ => NOTHING
  }

  /** The first loop of `commit`: each killed pointer becomes `Dangling`. */
  function ApplyKills(m: map<VarId, PtrStatus>, vs: seq<VarId>): (r: map<VarId, PtrStatus>)
    ensures forall v :: v in r <==> v in m || v in vs
    ensures forall v :: v in vs ==> r[v] == Dangling
    ensures forall v :: v in r && v !in vs ==> r[v] == m[v]
    decreases |vs|
  {
    if |vs| == 0 then m else ApplyKills(m[vs[0] := Dangling], vs[1..])
  }

  /** The second loop of `commit`: each revived pointer is erased. */
  function ApplyRevives(m: map<VarId, PtrStatus>, vs: seq<VarId>): (r: map<VarId, PtrStatus>)
    ensures forall v :: v in r <==> v in m && v !in vs
    ensures forall v :: v in r ==> r[v] == m[v]
    decreases |vs|
  {
    if |vs| == 0 then m else ApplyRevives(m - {vs[0]}, vs[1..])
  }

  /** `commit()`: kills first, revivals second; a revival in the same element wins. */
  function Commit(st: State, sg: Staged): (r: State)
    ensures forall v :: v in sg.toRevive ==> v !in r.pointers
    ensures forall v :: v in sg.toKill && v !in sg.toRevive ==> IsDangling(r, v)
    ensures forall v :: v !in sg.toKill && v !in sg.toRevive ==> (v in r.pointers <==> v in st.pointers)
  {
    State(ApplyRevives(ApplyKills(st.pointers, sg.toKill), sg.toRevive))
  }

  /** After `commit` a pointer dangles iff it dangled before or was killed, and was not revived: a revival wins. */
  lemma CommitDanglingSet(st: State, sg: Staged)
    ensures DanglingSet(Commit(st, sg)) == (DanglingSet(st) + set v | v in sg.toKill) - set v | v in sg.toRevive
    ensures OnlyDangling(st) ==> OnlyDangling(Commit(st, sg))
  {
  }

  /** `transfer(stmt, state)`: nothing for a null statement, otherwise visit then commit. */
  function Transfer(fe: Frontend, st: State, stmt: Option<Expr>): (r: Outcome)
    ensures stmt.None? ==> r.state == st && r.reports == []
    ensures forall i :: 0 <= i < |r.reports| ==> IsDangling(st, r.reports[i].variable)
  {
    match stmt
    case None => Outcome(st, [])
    case Some(e) =>
      var sg := Visit(fe, st, e);
      Outcome(Commit(st, sg), sg.reports)
  }

  /** `transfer_initializer(init, state)`: not analysed; the state is left as it is. */
  function TransferInitializer(st: State, initExpr: Option<Expr>): (r: Outcome)
    ensures r.state == st && r.reports == []
  {
    Outcome(st, [])
  }

  /** `transfer_implicit_dtor(dtor, state)`: nothing. */
  function TransferImplicitDtor(st: State): (r: Outcome)
    ensures r.state == st && r.reports == []
  {
    Outcome(st, [])
  }

  /** A straight-line run of elements, as the solver applies `transfer` within one block. */
  function TransferBlock(fe: Frontend, st: State, stmts: seq<Option<Expr>>): (r: Outcome)
    ensures |stmts| == 0 ==> r.state == st && r.reports == []
    ensures |stmts| == 1 ==> r == Transfer(fe, st, stmts[0])
    ensures (forall i :: 0 <= i < |stmts| ==> stmts[i].None?) ==> r.state == st && r.reports == []
    decreases |stmts|
  {
    if |stmts| == 0 then Outcome(st, [])
    else
      var first := Transfer(fe, st, stmts[0]);
      var rest := TransferBlock(fe, first.state, stmts[1..]);
      Outcome(rest.state, first.reports + rest.reports)
  }

  /** A block is its first part followed by its second: the second part starts from the first part's state, and the reports follow in order. */
  lemma {:induction false} TransferBlockSplits(fe: Frontend, st: State, a: seq<Option<Expr>>, b: seq<Option<Expr>>)
    ensures TransferBlock(fe, st, a + b).state == TransferBlock(fe, TransferBlock(fe, st, a).state, b).state
    ensures TransferBlock(fe, st, a + b).reports
         == TransferBlock(fe, st, a).reports + TransferBlock(fe, TransferBlock(fe, st, a).state, b).reports
    decreases |a|
  {
    if |a| == 0 {
      assert a + b == b;
    } else {
      var s1 := Transfer(fe, st, a[0]);
      assert (a + b)[0] == a[0] && (a + b)[1..] == a[1..] + b;
      BlockCons(fe, st, a, s1);
      BlockCons(fe, st, a + b, s1);
      TransferBlockSplits(fe, s1.state, a[1..], b);
      ReportsAssoc(s1.reports, TransferBlock(fe, s1.state, a[1..]).reports,
                   TransferBlock(fe, TransferBlock(fe, s1.state, a[1..]).state, b).reports);
    }
  }

  /** The block fold seen from its first element, whose transfer is `first`. */
  lemma BlockCons(fe: Frontend, st: State, s: seq<Option<Expr>>, first: Outcome)
    requires |s| > 0 && first == Transfer(fe, st, s[0])
    ensures TransferBlock(fe, st, s)
         == Outcome(TransferBlock(fe, first.state, s[1..]).state, first.reports + TransferBlock(fe, first.state, s[1..]).reports)
  {
  }

  /** Report sequences concatenate associatively. */
  lemma ReportsAssoc(x: seq<Report>, y: seq<Report>, z: seq<Report>)
    ensures x + (y + z) == (x + y) + z
  {
  }

  /** `merge(current, incoming)`: start from `current` and write `Dangling` for every pointer dangling in `incoming`. */
  function Merge(current: State, incoming: State): (r: State)
    ensures forall v :: v in r.pointers <==> v in current.pointers || IsDangling(incoming, v)
    ensures forall v :: IsDangling(incoming, v) ==> r.pointers[v] == Dangling
    ensures forall v :: v in current.pointers && !IsDangling(incoming, v) ==> r.pointers[v] == current.pointers[v]
  {
    State(map v | v in current.pointers.Keys + DanglingSet(incoming) ::
            if IsDangling(incoming, v) then Dangling else current.pointers[v])
  }

  // ---------------------------------------------------------------------------
  // Properties of the transfer steps
  // ---------------------------------------------------------------------------

  /** Every reachable state stores only `Dangling`: transfer, initializer and destructor steps keep the invariant. */
  lemma TransferPreservesOnlyDangling(fe: Frontend, st: State, stmts: seq<Option<Expr>>)
    requires OnlyDangling(st)
    ensures OnlyDangling(TransferBlock(fe, st, stmts).state)
    decreases |stmts|
  {
    if |stmts| > 0 {
      if stmts[0].Some? {
        CommitDanglingSet(st, Visit(fe, st, stmts[0].value));
      }
      TransferPreservesOnlyDangling(fe, Transfer(fe, st, stmts[0]).state, stmts[1..]);
    }
  }

  /** A null statement, any member initializer and an implicit destructor change nothing and report nothing. */
  lemma NoOpTransfers(fe: Frontend, st: State, initExpr: Option<Expr>)
    ensures Transfer(fe, st, None) == Outcome(st, [])
    ensures TransferInitializer(st, initExpr) == Outcome(st, [])
    ensures TransferImplicitDtor(st) == Outcome(st, [])
  {
  }

  /**
   `delete p` on a bare variable reports a double free iff `p` already
   dangles, and `p` dangles afterwards; every other pointer keeps its status.
   */
  lemma DeleteKills(fe: Frontend, st: State, arg: Expr, p: VarId)
    requires BareVar(arg) == Some(p)
    ensures var out := Transfer(fe, st, Some(Delete(arg)));
            out.reports == (if IsDangling(st, p) then [Report(DOUBLE_FREE_DELETE, p)] else [])
            && IsDangling(out.state, p)
            && (forall v :: v != p ==> (v in out.state.pointers <==> v in st.pointers))
            && (forall v :: v != p && v in st.pointers ==> out.state.pointers[v] == st.pointers[v])
  {
  }

  /**
   `free(p)` on a bare variable behaves like `delete p` with the `free`
   message, and returns before the argument scan: `p` is never also reported
   as a dangling argument.
   */
  lemma FreeKills(fe: Frontend, st: State, callee: CalleeId, args: seq<Expr>, p: VarId)
    requires fe.isStdCall(callee, "free") && |args| > 0 && BareVar(args[0]) == Some(p)
    ensures var out := Transfer(fe, st, Some(Call(callee, args)));
            out.reports == (if IsDangling(st, p) then [Report(DOUBLE_FREE_CALL, p)] else [])
            && IsDangling(out.state, p)
            && (forall v :: v != p ==> (v in out.state.pointers <==> v in st.pointers))
            && (forall v :: v != p && v in st.pointers ==> out.state.pointers[v] == st.pointers[v])
            && Report(UseMessage(PASSED_DANGLING), p) !in out.reports
  {
  }

  /** Every other call changes no status and reports exactly its argument scan. */
  lemma CallScansArguments(fe: Frontend, st: State, callee: CalleeId, args: seq<Expr>)
    requires !(fe.isStdCall(callee, "free") && |args| > 0 && BareVar(args[0]).Some?)
    ensures Transfer(fe, st, Some(Call(callee, args))) == Outcome(st, ScanArgs(st, args))
  {
    CommitOnlyReports(st, ScanArgs(st, args));
  }

  /**
   An assignment reports what its right-hand side reports, then one
   "read during assignment" report iff the stripped right-hand side is a
   dangling reference; a bare-variable left-hand side is valid afterwards.
   */
  lemma AssignmentRevives(fe: Frontend, st: State, lhs: Expr, rhs: Expr)
    ensures var out := Transfer(fe, st, Some(Assign(lhs, rhs)));
            out.reports == Visit(fe, st, rhs).reports + CheckUse(st, rhs, ASSIGN_READ)
            && (BareVar(lhs).Some? ==> BareVar(lhs).value !in out.state.pointers)
  {
  }

  /** `p = q` on two bare references: one report iff `q` dangles, as an assignment read, and `p` is valid afterwards. */
  lemma PlainCopyAssignment(fe: Frontend, st: State, p: VarId, q: VarId, lp: bool, lq: bool)
    ensures var out := Transfer(fe, st, Some(Assign(VarRef(p, lp), VarRef(q, lq))));
            out.reports == (if IsDangling(st, q) then [Report(UseMessage(ASSIGN_READ), q)] else [])
            && !IsDangling(out.state, p)
  {
    AssignmentRevives(fe, st, VarRef(p, lp), VarRef(q, lq));
  }

  /**
   `*x`, `x->m`, `x[i]` and `return x` each report with their own message
   exactly when `x` is a bare dangling reference, and never change the
   state. `.` member access and a bare `return` are never checked.
   */
  lemma AccessChecks(fe: Frontend, st: State, x: Expr, i: Expr)
    ensures Transfer(fe, st, Some(Deref(x))) == Outcome(st, CheckUse(st, x, DEREF_DANGLING))
    ensures Transfer(fe, st, Some(Arrow(x))) == Outcome(st, CheckUse(st, x, ARROW_DANGLING))
    ensures Transfer(fe, st, Some(Subscript(x, i))) == Outcome(st, CheckUse(st, x, INDEX_DANGLING))
    ensures Transfer(fe, st, Some(Return(x))) == Outcome(st, CheckUse(st, x, RETURNED_DANGLING))
    ensures Transfer(fe, st, Some(Dot(x))) == Outcome(st, [])
    ensures Transfer(fe, st, Some(ReturnVoid)) == Outcome(st, [])
  {
    CommitOnlyReports(st, []);
    DerefChecks(fe, st, x);
    ArrowChecks(fe, st, x);
    SubscriptChecks(fe, st, x, i);
    ReturnChecks(fe, st, x);
  }

  lemma DerefChecks(fe: Frontend, st: State, x: Expr)
    ensures Transfer(fe, st, Some(Deref(x))) == Outcome(st, CheckUse(st, x, DEREF_DANGLING))
  {
    CommitOnlyReports(st, CheckUse(st, x, DEREF_DANGLING));
  }

  lemma ArrowChecks(fe: Frontend, st: State, x: Expr)
    ensures Transfer(fe, st, Some(Arrow(x))) == Outcome(st, CheckUse(st, x, ARROW_DANGLING))
  {
    CommitOnlyReports(st, CheckUse(st, x, ARROW_DANGLING));
  }

  lemma SubscriptChecks(fe: Frontend, st: State, x: Expr, i: Expr)
    ensures Transfer(fe, st, Some(Subscript(x, i))) == Outcome(st, CheckUse(st, x, INDEX_DANGLING))
  {
    CommitOnlyReports(st, CheckUse(st, x, INDEX_DANGLING));
  }

  lemma ReturnChecks(fe: Frontend, st: State, x: Expr)
    ensures Transfer(fe, st, Some(Return(x))) == Outcome(st, CheckUse(st, x, RETURNED_DANGLING))
  {
    CommitOnlyReports(st, CheckUse(st, x, RETURNED_DANGLING));
  }

  /** Committing a visit that staged nothing leaves the state as it was. */
  lemma CommitOnlyReports(st: State, reports: seq<Report>)
    ensures Commit(st, Staged([], [], reports)) == st
  {
    assert Commit(st, Staged([], [], reports)).pointers == st.pointers;
  }

  /** `delete p; *p;` on a valid `p`: no report on the delete, exactly one dereference report after it. */
  lemma DeleteThenDerefReports(fe: Frontend, st: State, p: VarId, local: bool)
    requires !IsDangling(st, p)
    ensures TransferBlock(fe, st, [Some(Delete(VarRef(p, local))), Some(Deref(VarRef(p, local)))]).reports
            == [Report(UseMessage(DEREF_DANGLING), p)]
  {
    var stmts := [Some(Delete(VarRef(p, local))), Some(Deref(VarRef(p, local)))];
    var first := Transfer(fe, st, stmts[0]);
    DeleteKills(fe, st, VarRef(p, local), p);
    assert first.reports == [];
    var second := Transfer(fe, first.state, stmts[1]);
    assert second.reports == [Report(UseMessage(DEREF_DANGLING), p)];
    assert stmts[1..] == [stmts[1]] && stmts[1..][1..] == [];
    assert TransferBlock(fe, first.state, stmts[1..]).reports == second.reports + [];
  }

  // ---------------------------------------------------------------------------
  // Properties of the join
  // ---------------------------------------------------------------------------

  /** The join's dangling set is the union of the inputs' dangling sets, and the join keeps the invariant. */
  lemma MergeIsUnion(current: State, incoming: State)
    ensures DanglingSet(Merge(current, incoming)) == DanglingSet(current) + DanglingSet(incoming)
    ensures OnlyDangling(current) ==> OnlyDangling(Merge(current, incoming))
  {
  }

  /** On states that keep the invariant, the join is idempotent and commutative. */
  lemma MergeLaws(a: State, b: State)
    requires OnlyDangling(a) && OnlyDangling(b)
    ensures Merge(a, a) == a
    ensures Merge(a, b) == Merge(b, a)
    ensures Merge(InitialState(), a) == a && Merge(a, InitialState()) == a
  {
    assert Merge(a, a).pointers == a.pointers;
    assert Merge(a, b).pointers == Merge(b, a).pointers;
    assert Merge(InitialState(), a).pointers == a.pointers;
    assert Merge(a, InitialState()).pointers == a.pointers;
  }
}
