/**
 The use-after-move analysis (`Validator/src/cpp/use_after_move.cpp`).

 The state maps a variable to `Alive` or `Moved`; a missing entry means
 `Alive`. One CFG element is handled by a visitor that reads only the state
 before the element, collects the variables to move and to revive, and
 reports reads of moved variables; `commit` then writes the moves and,
 after them, erases the revivals.

 Reports are returned as a sequence instead of being printed.
 */
module UseAfterMove {
  import opened CfgAst

  datatype VarStatus = Alive | Moved

  /** `UAMSloverState`: the map from declaration to status. */
  datatype State = State(vars: map<VarId, VarStatus>)

  /** The one diagnostic of this analysis, naming the variable read after a move. */
  datatype Report = UsedAfterMove(variable: VarId)

  const USED_AFTER_MOVE_MESSAGE := "Variable '{}' is being used after move."

  /** What one visit collects: `m_vars_to_move`, `m_vars_to_revive`, and the reports it emitted. */
  datatype Staged = Staged(toMove: seq<VarId>, toRevive: seq<VarId>, reports: seq<Report>)

  /** The outcome of one transfer step: the state after it and what it reported. */
  datatype Outcome = Outcome(state: State, reports: seq<Report>)

  const NOTHING: Staged := Staged([], [], [])

  predicate IsMoved(s: State, v: VarId) {
    v in s.vars && s.vars[v] == Moved
  }

  function MovedSet(s: State): set<VarId> {
    set v | v in s.vars && s.vars[v] == Moved
  }

  /** The sparse-map convention: only `Moved` is ever stored. */
  predicate OnlyMoved(s: State) {
    forall v :: v in s.vars ==> s.vars[v] == Moved
  }

  /** `get_initial_state()`: an empty map. */
  function InitialState(): (s: State)
    ensures MovedSet(s) == {}
    ensures OnlyMoved(s)
    ensures forall v :: !IsMoved(s, v)
  {
    State(map[])
  }

  /**
   `TransferVisitor::visit`. It inspects the node itself, never its children,
   except that an assignment visits its right-hand side first.
   */
  function Visit(fe: Frontend, st: State, e: Expr): (r: Staged)
    ensures |r.toMove| <= 1 && |r.reports| <= 1
    ensures forall i :: 0 <= i < |r.reports| ==> IsMoved(st, r.reports[i].variable)
    ensures forall i :: 0 <= i < |r.toMove| ==> !fe.cheapToCopy(r.toMove[i])
    ensures !e.Assign? ==> r.toRevive == []
    decreases e
  {
    match e
    case Assign(lhs, rhs) =>
      var inner := Visit(fe, st, rhs);
      (match BareVar(lhs)
       case Some(v) => inner.(toRevive := inner.toRevive + [v])
       case None => inner)
    case Call(callee, args) =>
      if fe.isStdCall(callee, "move") && |args| > 0 && BareVar(args[0]).Some?
         && !fe.cheapToCopy(BareVar(args[0]).value)
      then Staged([BareVar(args[0]).value], [], [])
      else NOTHING
    case VarRef(v, localStorage) =>
      if localStorage && IsMoved(st, v) then Staged([], [], [UsedAfterMove(v)]) else NOTHING
    case _ => NOTHING
  }

  /** The first loop of `commit`: each staged variable becomes `Moved`. */
  function ApplyMoves(m: map<VarId, VarStatus>, vs: seq<VarId>): (r: map<VarId, VarStatus>)
    ensures forall v :: v in r <==> v in m || v in vs
    ensures forall v :: v in vs ==> r[v] == Moved
    ensures forall v :: v in r && v !in vs ==> r[v] == m[v]
    decreases |vs|
  {
    if |vs| == 0 then m else ApplyMoves(m[vs[0] := Moved], vs[1..])
  }

  /** The second loop of `commit`: each staged variable is set `Alive` and then erased. */
  function ApplyRevives(m: map<VarId, VarStatus>, vs: seq<VarId>): (r: map<VarId, VarStatus>)
    ensures forall v :: v in r <==> v in m && v !in vs
    ensures forall v :: v in r ==> r[v] == m[v]
    decreases |vs|
  {
    if |vs| == 0 then m else ApplyRevives(m[vs[0] := Alive] - {vs[0]}, vs[1..])
  }

  /**
   `commit()`: all moves first, then all revivals. A revival staged in the
   same element wins over a move, and no `Alive` entry is left behind.
   */
  function Commit(st: State, sg: Staged): (r: State)
    ensures forall v :: v in sg.toRevive ==> v !in r.vars
    ensures forall v :: v in sg.toMove && v !in sg.toRevive ==> IsMoved(r, v)
    ensures OnlyMoved(st) ==> OnlyMoved(r)
  {
    State(ApplyRevives(ApplyMoves(st.vars, sg.toMove), sg.toRevive))
  }

  /**
   After `commit`, a variable is tracked iff it was tracked or staged for a
   move, and was not staged for revival; a staged move reads `Moved`, and
   every other surviving entry is unchanged.
   */
  lemma CommitSpec(st: State, sg: Staged)
    ensures forall v :: v in Commit(st, sg).vars <==> (v in st.vars || v in sg.toMove) && v !in sg.toRevive
    ensures forall v :: v in Commit(st, sg).vars && v in sg.toMove ==> Commit(st, sg).vars[v] == Moved
    ensures forall v :: v in Commit(st, sg).vars && v !in sg.toMove ==> Commit(st, sg).vars[v] == st.vars[v]
  {
  }

  /** The moved set after `commit` is (moved before plus staged moves) minus staged revivals. */
  lemma CommitMovedSet(st: State, sg: Staged)
    ensures MovedSet(Commit(st, sg)) == (MovedSet(st) + set v | v in sg.toMove) - set v | v in sg.toRevive
  {
    CommitSpec(st, sg);
  }

  /** `transfer(stmt, state)`: nothing for a null statement, otherwise visit then commit. */
  function Transfer(fe: Frontend, st: State, stmt: Option<Expr>): (r: Outcome)
    ensures stmt.None? ==> r.state == st && r.reports == []
    ensures |r.reports| <= 1
    ensures forall i :: 0 <= i < |r.reports| ==> IsMoved(st, r.reports[i].variable)
    ensures OnlyMoved(st) ==> OnlyMoved(r.state)
  {
    match stmt
    case None => Outcome(st, [])
    case Some(e) =>
      var sg := Visit(fe, st, e);
      Outcome(Commit(st, sg), sg.reports)
  }

  /** `transfer_initializer(init, state)`: the initializer's expression, if any, is transferred. */
  function TransferInitializer(fe: Frontend, st: State, initExpr: Option<Expr>): (r: Outcome)
    ensures r == Transfer(fe, st, initExpr)
    ensures forall i :: 0 <= i < |r.reports| ==> IsMoved(st, r.reports[i].variable)
  {
    match initExpr
    case None => Outcome(st, [])
    case Some(e) => Transfer(fe, st, Some(e))
  }

  /** `transfer_implicit_dtor(dtor, state)`: nothing. */
  function TransferImplicitDtor(st: State): (r: Outcome)
    ensures r.state == st && r.reports == []
  {
    Outcome(st, [])
  }

  /** A straight-line run of elements, as the solver applies `transfer` within one block. */
  function TransferBlock(fe: Frontend, st: State, stmts: seq<Option<Expr>>): (r: Outcome)
    ensures |r.reports| <= |stmts|
    ensures OnlyMoved(st) ==> OnlyMoved(r.state)
    ensures |stmts| == 1 ==> r == Transfer(fe, st, stmts[0])
    decreases |stmts|
  {
    if |stmts| == 0 then Outcome(st, [])
    else
      var first := Transfer(fe, st, stmts[0]);
      var rest := TransferBlock(fe, first.state, stmts[1..]);
      Outcome(rest.state, first.reports + rest.reports)
  }

  /** `merge(current, incoming)`: start from `current` and write `Moved` for every variable `incoming` marks moved. */
  function Merge(current: State, incoming: State): (r: State)
    ensures forall v :: v in r.vars <==> v in current.vars || IsMoved(incoming, v)
    ensures forall v :: IsMoved(incoming, v) ==> r.vars[v] == Moved
    ensures forall v :: v in current.vars && !IsMoved(incoming, v) ==> r.vars[v] == current.vars[v]
  {
    State(map v | v in current.vars.Keys + MovedSet(incoming) ::
            if IsMoved(incoming, v) then Moved else current.vars[v])
  }

  /**
   The source's loop over the entries of `incoming`, in whatever order the
   hash map yields them (`order` lists each key at least once), computes
   the join.
   */
  method MergeLoop(current: State, incoming: State, order: seq<VarId>) returns (result: State)
    requires forall v :: v in incoming.vars <==> v in order
    ensures result == Merge(current, incoming)
  {
    result := current;
    var i := 0;
    while i < |order|
      invariant 0 <= i <= |order|
      invariant forall v :: v in result.vars <==> v in current.vars || (v in order[..i] && IsMoved(incoming, v))
      invariant forall v :: v in result.vars ==>
                  result.vars[v] == (if v in order[..i] && IsMoved(incoming, v) then Moved else current.vars[v])
    {
      var k := order[i];
      if incoming.vars[k] == Moved {
        result := State(result.vars[k := Moved]);
      }
      assert order[..i + 1] == order[..i] + [k];
      i := i + 1;
    }
    assert order[..i] == order;
    var expected := Merge(current, incoming);
    assert result.vars.Keys == expected.vars.Keys;
  }

  // ---------------------------------------------------------------------------
  // Properties of the transfer steps
  // ---------------------------------------------------------------------------

  /** Every transfer keeps the invariant that only `Moved` entries are stored. */
  lemma TransferPreservesOnlyMoved(fe: Frontend, st: State, stmt: Option<Expr>)
    requires OnlyMoved(st)
    ensures OnlyMoved(Transfer(fe, st, stmt).state)
  {
    if stmt.Some? {
      CommitSpec(st, Visit(fe, st, stmt.value));
    }
  }

  lemma {:induction false} TransferBlockPreservesOnlyMoved(fe: Frontend, st: State, stmts: seq<Option<Expr>>)
    requires OnlyMoved(st)
    ensures OnlyMoved(TransferBlock(fe, st, stmts).state)
    decreases |stmts|
  {
    if |stmts| > 0 {
      TransferPreservesOnlyMoved(fe, st, stmts[0]);
      TransferBlockPreservesOnlyMoved(fe, Transfer(fe, st, stmts[0]).state, stmts[1..]);
    }
  }

  /** The reports of a transfer come from the pre-statement state: each names a variable already moved. */
  lemma ReportsUsePreState(fe: Frontend, st: State, e: Expr)
    ensures Transfer(fe, st, Some(e)).reports == Visit(fe, st, e).reports
    ensures forall i :: 0 <= i < |Transfer(fe, st, Some(e)).reports| ==>
              IsMoved(st, Transfer(fe, st, Some(e)).reports[i].variable)
  {
  }

  /** A null statement, an implicit destructor and an initializer without an expression do nothing. */
  lemma NoOpTransfers(fe: Frontend, st: State)
    ensures Transfer(fe, st, None) == Outcome(st, [])
    ensures TransferImplicitDtor(st) == Outcome(st, [])
    ensures TransferInitializer(fe, st, None) == Outcome(st, [])
  {
  }

  /** A member initializer with an expression is transferred exactly like a statement. */
  lemma InitializerIsTransfer(fe: Frontend, st: State, e: Expr)
    ensures TransferInitializer(fe, st, Some(e)) == Transfer(fe, st, Some(e))
  {
  }

  /**
   `std::move(x)` with `x` a bare variable that is not cheap to copy adds
   exactly `x` to the moved set, reports nothing, and does not read `x`.
   Any other `std::move` call leaves the state as it was.
   */
  lemma MoveCallMarksMoved(fe: Frontend, st: State, callee: CalleeId, args: seq<Expr>)
    requires fe.isStdCall(callee, "move")
    ensures Transfer(fe, st, Some(Call(callee, args))).reports == []
    ensures |args| > 0 && BareVar(args[0]).Some? && !fe.cheapToCopy(BareVar(args[0]).value) ==>
              MovedSet(Transfer(fe, st, Some(Call(callee, args))).state) == MovedSet(st) + {BareVar(args[0]).value}
    ensures !(|args| > 0 && BareVar(args[0]).Some? && !fe.cheapToCopy(BareVar(args[0]).value)) ==>
              Transfer(fe, st, Some(Call(callee, args))).state == st
  {
    var sg := Visit(fe, st, Call(callee, args));
    CommitMovedSet(st, sg);
    if !(|args| > 0 && BareVar(args[0]).Some? && !fe.cheapToCopy(BareVar(args[0]).value)) {
      CommitSpec(st, sg);
      assert Commit(st, sg).vars == st.vars;
    }
  }

  /**
   An assignment reports exactly what its right-hand side reports (the
   left-hand side is not read), and a bare-variable left-hand side is alive
   and untracked afterwards.
   */
  lemma AssignmentRevives(fe: Frontend, st: State, lhs: Expr, rhs: Expr)
    ensures Transfer(fe, st, Some(Assign(lhs, rhs))).reports == Visit(fe, st, rhs).reports
    ensures BareVar(lhs).Some? ==> BareVar(lhs).value !in Transfer(fe, st, Some(Assign(lhs, rhs))).state.vars
  {
    CommitSpec(st, Visit(fe, st, Assign(lhs, rhs)));
  }

  /** `x = std::move(x)`: no report, and `x` ends alive because the revival is committed after the move. */
  lemma SelfMoveAssignLeavesAlive(fe: Frontend, st: State, x: VarId, local: bool, callee: CalleeId)
    requires fe.isStdCall(callee, "move")
    ensures var out := Transfer(fe, st, Some(Assign(VarRef(x, local), Call(callee, [VarRef(x, local)]))));
            out.reports == [] && x !in out.state.vars && !IsMoved(out.state, x)
  {
    AssignmentRevives(fe, st, VarRef(x, local), Call(callee, [VarRef(x, local)]));
  }

  /** A bare variable reference reports exactly once iff it has local storage and is moved; it never changes the state. */
  lemma ReferenceReports(fe: Frontend, st: State, v: VarId, local: bool)
    ensures Transfer(fe, st, Some(VarRef(v, local))).state == st
    ensures |Transfer(fe, st, Some(VarRef(v, local))).reports| == (if local && IsMoved(st, v) then 1 else 0)
  {
    var sg := Visit(fe, st, VarRef(v, local));
    CommitSpec(st, sg);
    assert Commit(st, sg).vars == st.vars;
  }

  /**
   Every other node kind, and every call that is not `std::move`, is passed
   over: the visitor does not descend into children.
   */
  lemma OtherNodesIgnored(fe: Frontend, st: State, e: Expr)
    requires !e.Assign? && !e.VarRef?
    requires e.Call? ==> !fe.isStdCall(e.callee, "move")
    ensures Transfer(fe, st, Some(e)) == Outcome(st, [])
  {
    var sg := Visit(fe, st, e);
    assert sg == NOTHING;
    CommitSpec(st, sg);
    assert Commit(st, sg).vars == st.vars;
  }

  /** `std::move(x); x;` on a local that is not cheap to copy: exactly one report, on the later reference. */
  lemma MoveThenUseReports(fe: Frontend, st: State, x: VarId, callee: CalleeId)
    requires fe.isStdCall(callee, "move") && !fe.cheapToCopy(x)
    ensures TransferBlock(fe, st, [Some(Call(callee, [VarRef(x, true)])), Some(VarRef(x, true))]).reports
            == [UsedAfterMove(x)]
  {
    var stmts := [Some(Call(callee, [VarRef(x, true)])), Some(VarRef(x, true))];
    var first := Transfer(fe, st, stmts[0]);
    MoveCallMarksMoved(fe, st, callee, [VarRef(x, true)]);
    assert x in MovedSet(first.state);
    assert IsMoved(first.state, x);
    assert stmts[1..] == [Some(VarRef(x, true))];
    var second := Transfer(fe, first.state, stmts[1]);
    assert second.reports == [UsedAfterMove(x)];
    assert stmts[1..][1..] == [];
    assert TransferBlock(fe, first.state, stmts[1..]).reports == second.reports + [];
    assert first.reports == [];
  }

  // ---------------------------------------------------------------------------
  // Properties of the join
  // ---------------------------------------------------------------------------

  /** The join's moved set is the union of the inputs' moved sets, and the join keeps the invariant. */
  lemma MergeIsUnion(current: State, incoming: State)
    ensures MovedSet(Merge(current, incoming)) == MovedSet(current) + MovedSet(incoming)
    ensures OnlyMoved(current) ==> OnlyMoved(Merge(current, incoming))
  {
  }

  /** On states that keep the invariant, the join is idempotent and commutative, and the initial state is its unit. */
  lemma MergeLaws(a: State, b: State)
    requires OnlyMoved(a) && OnlyMoved(b)
    ensures Merge(a, a) == a
    ensures Merge(a, b) == Merge(b, a)
    ensures Merge(InitialState(), a) == a && Merge(a, InitialState()) == a
  {
    assert Merge(a, a).vars == a.vars;
    assert Merge(a, b).vars == Merge(b, a).vars;
    assert Merge(InitialState(), a).vars == a.vars;
    assert Merge(a, InitialState()).vars == a.vars;
  }
}
