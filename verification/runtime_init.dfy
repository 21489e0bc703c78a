/**
 Per-thread runtime initialisation (`src/cpp/auxid.cpp`): a process-wide
 map from thread to an `i32` counter, and the id of the main thread.
 Initialising increments the calling thread's counter and sets up the
 allocator only on the way to 1; terminating decrements it and tears the
 allocator down once it reaches 0 or below.

 The calling thread is a parameter. The allocator calls are returned as
 effects; this is the build that uses rpmalloc (with the system allocator
 they are compiled out and no effect happens).
 */
module RuntimeInit {

  /** `Thread::ThreadID` (`thrd_t`), opaque. */
  type ThreadId = nat

  /** A value-initialised `thrd_t`, what `main_thread_id{}` holds before any main-thread initialisation. */
  const NO_THREAD: ThreadId := 0

  datatype Effect =
    | RpmallocInitialize
    | RpmallocFinalize
    | RpmallocThreadInitialize
    | RpmallocThreadFinalize

  datatype State = State(mainThread: ThreadId, counters: map<ThreadId, int>)

  /** The outcome of one call: the new state and the allocator calls it made. */
  datatype Step = Step(state: State, effects: seq<Effect>)

  /** The four entry points, for running sequences of calls. */
  datatype Call = InitMain | TermMain | InitWorker | TermWorker

  /** `thread_init_counter[t]` as a read: a missing entry reads as 0. */
  function Count(s: State, t: ThreadId): int {
    if t in s.counters then s.counters[t] else 0
  }

  /** `get_state()` on first use: no main thread recorded and no counters. */
  function Initial(): (s: State)
    ensures forall t :: Count(s, t) == 0
  {
    State(NO_THREAD, map[])
  }

  /** Writing one thread's counter through `operator[]`. */
  function SetCount(s: State, t: ThreadId, n: int): (r: State)
    ensures Count(r, t) == n
    ensures forall u :: u != t ==> Count(r, u) == Count(s, u)
    ensures r.mainThread == s.mainThread
  {
    State(s.mainThread, s.counters[t := n])
  }

  /** `initialize_main_thread()` on thread `t`. */
  function InitializeMain(s: State, t: ThreadId): (r: Step)
    ensures Count(r.state, t) == Count(s, t) + 1
    ensures forall u :: u != t ==> Count(r.state, u) == Count(s, u)
    ensures Count(s, t) + 1 <= 1 ==> r.state.mainThread == t && r.effects == [RpmallocInitialize]
    ensures Count(s, t) + 1 > 1 ==> r.state.mainThread == s.mainThread && r.effects == []
  {
    var s1 := SetCount(s, t, Count(s, t) + 1);
    if Count(s1, t) > 1 then Step(s1, []) else Step(s1.(mainThread := t), [RpmallocInitialize])
  }

  /** `terminate_main_thread()` on thread `t`. */
  function TerminateMain(s: State, t: ThreadId): (r: Step)
    ensures Count(r.state, t) == Count(s, t) - 1
    ensures forall u :: u != t ==> Count(r.state, u) == Count(s, u)
    ensures r.state.mainThread == s.mainThread
    ensures r.effects == (if Count(s, t) - 1 > 0 then [] else [RpmallocFinalize])
  {
    var s1 := SetCount(s, t, Count(s, t) - 1);
    if Count(s1, t) > 0 then Step(s1, []) else Step(s1, [RpmallocFinalize])
  }

  /** `initialize_worker_thread()` on thread `t`: no main-thread id is recorded. */
  function InitializeWorker(s: State, t: ThreadId): (r: Step)
    ensures Count(r.state, t) == Count(s, t) + 1
    ensures forall u :: u != t ==> Count(r.state, u) == Count(s, u)
    ensures r.state.mainThread == s.mainThread
    ensures r.effects == (if Count(s, t) + 1 > 1 then [] else [RpmallocThreadInitialize])
  {
    var s1 := SetCount(s, t, Count(s, t) + 1);
    if Count(s1, t) > 1 then Step(s1, []) else Step(s1, [RpmallocThreadInitialize])
  }

  /** `terminate_worker_thread()` on thread `t`. */
  function TerminateWorker(s: State, t: ThreadId): (r: Step)
    ensures Count(r.state, t) == Count(s, t) - 1
    ensures forall u :: u != t ==> Count(r.state, u) == Count(s, u)
    ensures r.state.mainThread == s.mainThread
    ensures r.effects == (if Count(s, t) - 1 > 0 then [] else [RpmallocThreadFinalize])
  {
    var s1 := SetCount(s, t, Count(s, t) - 1);
    if Count(s1, t) > 0 then Step(s1, []) else Step(s1, [RpmallocThreadFinalize])
  }

  /**
   `is_main_thread()` on thread `t`. Before any main-thread initialisation the
   recorded id is the value-initialised one, so only that id compares equal.
   */
  function IsMainThread(s: State, t: ThreadId): (r: bool)
    ensures s == Initial() ==> (r <==> t == NO_THREAD)
  {
    s.mainThread == t
  }

  /**
   `is_thread_initialized()` on thread `t`: the lookup goes through
   `operator[]`, which inserts a zero entry for an unseen thread.
   */
  function IsThreadInitialized(s: State, t: ThreadId): (r: (bool, State))
    ensures r.0 <==> Count(s, t) > 0
    ensures forall u :: Count(r.1, u) == Count(s, u)
    ensures r.1.mainThread == s.mainThread
  {
    var s1 := SetCount(s, t, Count(s, t));
    (Count(s1, t) > 0, s1)
  }

  /** One call by thread `t`: its counter moves by one, no other counter moves, and at most one allocator call is made. */
  function Apply(s: State, t: ThreadId, c: Call): (r: Step)
    ensures Count(r.state, t) == Count(s, t) + (if c == InitMain || c == InitWorker then 1 else -1)
    ensures forall u :: u != t ==> Count(r.state, u) == Count(s, u)
    ensures |r.effects| <= 1
    ensures c != InitMain ==> r.state.mainThread == s.mainThread
  {
    match c
    case InitMain => InitializeMain(s, t)
    case TermMain => TerminateMain(s, t)
    case InitWorker => InitializeWorker(s, t)
    case TermWorker => TerminateWorker(s, t)
  }

  /** A sequence of calls made by thread `t`, collecting the allocator calls in order. */
  function Run(s: State, t: ThreadId, calls: seq<Call>): (r: Step)
    ensures |r.effects| <= |calls|
    ensures (forall i :: 0 <= i < |calls| ==> calls[i] != InitMain) ==> r.state.mainThread == s.mainThread
    decreases |calls|
  {
    if |calls| == 0 then Step(s, [])
    else
      var first := Apply(s, t, calls[0]);
      var rest := Run(first.state, t, calls[1..]);
      Step(rest.state, first.effects + rest.effects)
  }

  /** +1 for an initialisation, -1 for a termination. */
  function Delta(c: Call): int {
    if c == InitMain || c == InitWorker then 1 else -1
  }

  function NetDelta(calls: seq<Call>): int
    decreases |calls|
  {
    if |calls| == 0 then 0 else Delta(calls[0]) + NetDelta(calls[1..])
  }

  /** A run changes the caller's counter by its initialisations minus its terminations, and no other counter. */
  lemma {:induction false} RunCount(s: State, t: ThreadId, calls: seq<Call>)
    ensures Count(Run(s, t, calls).state, t) == Count(s, t) + NetDelta(calls)
    ensures forall u :: u != t ==> Count(Run(s, t, calls).state, u) == Count(s, u)
    decreases |calls|
  {
    if |calls| > 0 {
      RunCount(Apply(s, t, calls[0]).state, t, calls[1..]);
    }
  }

  /** `n` initialisations followed by `n` terminations. */
  function Balanced(n: nat, init: Call, term: Call): seq<Call> {
    seq(n, _ => init) + seq(n, _ => term)
  }

  lemma {:induction false} NetDeltaAppend(a: seq<Call>, b: seq<Call>)
    ensures NetDelta(a + b) == NetDelta(a) + NetDelta(b)
    decreases |a|
  {
    if |a| > 0 {
      assert (a + b)[1..] == a[1..] + b;
      NetDeltaAppend(a[1..], b);
    } else {
      assert a + b == b;
    }
  }

  lemma {:induction false} NetDeltaRepeat(n: nat, c: Call)
    ensures NetDelta(seq(n, _ => c)) == n * Delta(c)
    decreases n
  {
    if n > 0 {
      assert seq(n, _ => c)[1..] == seq(n - 1, _ => c);
      NetDeltaRepeat(n - 1, c);
    }
  }

  /** As many terminations as initialisations (main or worker) restore every counter. */
  lemma BalancedRestoresCount(s: State, t: ThreadId, n: nat, isMain: bool)
    ensures var calls := if isMain then Balanced(n, InitMain, TermMain) else Balanced(n, InitWorker, TermWorker);
            forall u :: Count(Run(s, t, calls).state, u) == Count(s, u)
  {
    var init := if isMain then InitMain else InitWorker;
    var term := if isMain then TermMain else TermWorker;
    NetDeltaAppend(seq(n, _ => init), seq(n, _ => term));
    NetDeltaRepeat(n, init);
    NetDeltaRepeat(n, term);
    RunCount(s, t, Balanced(n, init, term));
  }

  /** Initialising a thread whose counter is already positive calls nothing and keeps the main thread. */
  lemma {:induction false} InitsAboveOne(s: State, t: ThreadId, n: nat)
    requires Count(s, t) >= 1
    ensures Run(s, t, seq(n, _ => InitMain)).effects == []
    ensures Run(s, t, seq(n, _ => InitMain)).state.mainThread == s.mainThread
    ensures Count(Run(s, t, seq(n, _ => InitMain)).state, t) == Count(s, t) + n
    decreases n
  {
    if n > 0 {
      assert seq(n, _ => InitMain)[0] == InitMain;
      assert seq(n, _ => InitMain)[1..] == seq(n - 1, _ => InitMain);
      InitsAboveOne(InitializeMain(s, t).state, t, n - 1);
    }
  }

  /**
   `n` nested main-thread initialisations on a thread with counter 0 set up
   the allocator once, on the first, record the thread as main, and leave
   the counter at `n`.
   */
  lemma NestedInitOnce(s: State, t: ThreadId, n: nat)
    requires Count(s, t) == 0 && n >= 1
    ensures var r := Run(s, t, seq(n, _ => InitMain));
            r.effects == [RpmallocInitialize] && Count(r.state, t) == n && IsMainThread(r.state, t)
  {
    var calls := seq(n, _ => InitMain);
    assert calls[0] == InitMain;
    assert calls[1..] == seq(n - 1, _ => InitMain);
    var first := InitializeMain(s, t);
    InitsAboveOne(first.state, t, n - 1);
  }

  /** `n` main-thread terminations from counter `n` finalise the allocator once, on the last, and leave 0. */
  lemma {:induction false} NestedTerminateOnce(s: State, t: ThreadId, n: nat)
    requires n >= 1 && Count(s, t) == n
    ensures var r := Run(s, t, seq(n, _ => TermMain));
            r.effects == [RpmallocFinalize] && Count(r.state, t) == 0
    decreases n
  {
    var calls := seq(n, _ => TermMain);
    assert calls[0] == TermMain;
    assert calls[1..] == seq(n - 1, _ => TermMain);
    var first := TerminateMain(s, t);
    if n == 1 {
      assert calls[1..] == [];
    } else {
      NestedTerminateOnce(first.state, t, n - 1);
    }
  }

  /** A termination without a matching initialisation drives the counter to -1 and still finalises. */
  lemma UnmatchedTerminate(s: State, t: ThreadId)
    requires Count(s, t) == 0
    ensures TerminateMain(s, t).effects == [RpmallocFinalize] && Count(TerminateMain(s, t).state, t) == -1
    ensures TerminateWorker(s, t).effects == [RpmallocThreadFinalize] && Count(TerminateWorker(s, t).state, t) == -1
    ensures !IsThreadInitialized(TerminateMain(s, t).state, t).0
  {
  }

  /** The first main-thread initialisation makes the caller the main thread, and initialised, and no other thread. */
  lemma FirstInitMarksMain(t: ThreadId)
    ensures var r := InitializeMain(Initial(), t);
            IsMainThread(r.state, t) && IsThreadInitialized(r.state, t).0
            && (forall u :: u != t ==> !IsThreadInitialized(r.state, u).0)
            && r.effects == [RpmallocInitialize]
  {
  }
}
