/** Group commit (src/storage/group_commit.cpp) as the steps its threads interleave in: what happens under
    the mutex is one step, and so is each atomic access outside it. */
module GroupCommit {
  import opened Errors

  /** Why a thread flushes: for a waiter's number, for the background interval, or on a direct call. */
  datatype Role = Leader(seqNo: nat) | Background | Direct

  datatype Proc =
    | Idle
    | Waiting(seqNo: nat)
    | Asleep(seqNo: nat)
    | Started(role: Role)
    | Snapped(role: Role, target: nat)
    | Flushing(role: Role, target: nat, begun: nat)
    | Flushed(role: Role, target: nat)
    | Publishing(role: Role, target: nat, cur: nat)
    | Finished(role: Role, target: nat, ok: bool)

  /** A successful flush: the number it was promised for, and the committed number when it began. */
  datatype Flush = Flush(target: nat, begun: nat)

  datatype Return = Return(seqNo: nat, err: Err)

  /** `shared` is the watermark in the image, `flushed` its mirror in the host. The last four fields
      only record what happened. */
  datatype State = State(initial: nat, committed: nat, shared: nat, flushed: nat, flushing: bool, error: bool,
                         procs: map<nat, Proc>,
                         done: seq<Flush>, returned: seq<Return>, failures: nat, errors: nat)

  datatype Act =
    | Commit(to: nat)
    | Call(t: nat, seqNo: nat)
    | Check(t: nat)
    | Wake(t: nat)
    | TimeOut(t: nat)
    | Tick(t: nat)
    | FlushNow(t: nat)
    | Snap(t: nat)
    | Begin(t: nat)
    | End(t: nat, ok: bool)
    | Load(t: nat)
    | Cas(t: nat, spurious: bool)
    | Relock(t: nat)

  function At(s: State, t: nat): Proc {
    if t in s.procs then s.procs[t] else Idle
  }

  function Go(s: State, t: nat, p: Proc): State {
    s.(procs := s.procs[t := p])
  }

  predicate Enabled(s: State, a: Act) {
    match a
    case Commit(n) => s.committed <= n
    case Call(t, _) => At(s, t).Idle?
    case Check(t) => At(s, t).Waiting?
    case Wake(t) => At(s, t).Asleep?
    case TimeOut(t) => At(s, t).Asleep?
    case Tick(t) => At(s, t).Idle? && !s.flushing
    case FlushNow(t) => At(s, t).Idle?
    case Snap(t) => At(s, t).Started?
    case Begin(t) => At(s, t).Snapped?
    case End(t, _) => At(s, t).Flushing?
    case Load(t) => At(s, t).Flushed?
    case Cas(t, _) => At(s, t).Publishing?
    case Relock(t) => At(s, t).Finished?
  }

  /** One pass of the waiting loop under the mutex. A thread that goes to sleep may wake or time out whatever the
      state is by then. */
  function DoCheck(s: State, t: nat): State
    requires At(s, t).Waiting?
  {
    var n := At(s, t).seqNo;
    if s.flushed >= n then Go(s, t, Idle).(returned := s.returned + [Return(n, Ok)])
    else if s.error then Go(s, t, Idle).(error := false, returned := s.returned + [Return(n, IoError)],
      errors := s.errors + 1)
    else if !s.flushing then Go(s, t, Started(Leader(n))).(flushing := true)
    else Go(s, t, Asleep(n))
  }

  /** Back under the mutex after a flush. */
  function DoRelock(s: State, t: nat): State
    requires At(s, t).Finished?
  {
    var p := At(s, t);
    var m := if p.ok && p.target > s.flushed then p.target else s.flushed;
    match p.role
    case Leader(n) =>
      var g := Go(s, t, Waiting(n)).(flushing := false);
      if p.ok then g.(flushed := m) else g.(error := true, failures := s.failures + 1)
    case Background => Go(s, t, Idle).(flushing := false, flushed := m)
    case Direct => Go(s, t, Idle)
  }

  function Do(s: State, a: Act): State
    requires Enabled(s, a)
  {
    match a
    case Commit(n) => s.(committed := n)
    case Call(t, n) => Go(s, t, Waiting(n))
    case Check(t) => DoCheck(s, t)
    case Wake(t) => Go(s, t, Waiting(At(s, t).seqNo))
    case TimeOut(t) => Go(s, t, Idle).(returned := s.returned + [Return(At(s, t).seqNo, Timeout)])
    case Tick(t) => Go(s, t, Started(Background)).(flushing := true)
    case FlushNow(t) => Go(s, t, Started(Direct))
    case Snap(t) => Go(s, t, Snapped(At(s, t).role, s.committed))
    case Begin(t) => Go(s, t, Flushing(At(s, t).role, At(s, t).target, s.committed))
    case End(t, ok) =>
      var p := At(s, t);
      if ok then Go(s, t, Flushed(p.role, p.target)).(done := s.done + [Flush(p.target, p.begun)])
      else Go(s, t, Finished(p.role, p.target, false))
    case Load(t) => Go(s, t, Publishing(At(s, t).role, At(s, t).target, s.shared))
    case Cas(t, spurious) =>
      var p := At(s, t);
      if p.cur >= p.target then Go(s, t, Finished(p.role, p.target, true))
      else if s.shared == p.cur && !spurious then Go(s, t, Finished(p.role, p.target, true)).(shared := p.target)
      else Go(s, t, Publishing(p.role, p.target, s.shared))
    case Relock(t) => DoRelock(s, t)
  }

  function Start(initial: nat, committed: nat): State {
    State(initial, committed, initial, initial, false, false, map[], [], [], 0, 0)
  }

  // ---- what every reachable state keeps ----

  /** A successful flush promised at least n, or n was under the watermark to begin with. */
  ghost predicate Covered(s: State, n: nat) {
    n <= s.initial || exists i :: 0 <= i < |s.done| && s.done[i].target >= n
  }

  /** A flush that may raise the flushing flag. */
  predicate Exclusive(p: Proc) {
    p.Started? || p.Snapped? || p.Flushing? || p.Flushed? || p.Publishing? || p.Finished?
  }

  predicate Holds(p: Proc) {
    Exclusive(p) && p.role != Direct
  }

  ghost predicate ProcOk(s: State, t: nat) {
    var p := At(s, t);
    && (p.Snapped? ==> p.target <= s.committed)
    && (p.Flushing? ==> p.target <= p.begun <= s.committed)
    && (p.Flushed? || p.Publishing? || (p.Finished? && p.ok) ==> Covered(s, p.target))
    && (p.Publishing? ==> p.cur <= s.shared)
    && (p.Finished? && p.ok ==> p.target <= s.shared)
    && (Holds(p) ==> s.flushing)
    && (Holds(p) && p.role.Leader? ==> !s.error)
  }

  predicate FlushOk(s: State, i: nat)
    requires i < |s.done|
  {
    s.done[i].target <= s.done[i].begun <= s.committed
  }

  ghost predicate ReturnOk(s: State, i: nat)
    requires i < |s.returned|
  {
    s.returned[i].err == Ok ==> Covered(s, s.returned[i].seqNo)
  }

  predicate PairOk(s: State, t: nat, u: nat) {
    t != u && Holds(At(s, t)) ==> !Holds(At(s, u))
  }

  ghost predicate Inv(s: State) {
    && s.initial <= s.flushed <= s.shared
    && Covered(s, s.shared) && Covered(s, s.flushed)
    && s.failures == s.errors + (if s.error then 1 else 0)
    && (forall t {:trigger ProcOk(s, t)} :: ProcOk(s, t))
    && (forall i {:trigger FlushOk(s, i)} :: 0 <= i < |s.done| ==> FlushOk(s, i))
    && (forall i {:trigger ReturnOk(s, i)} :: 0 <= i < |s.returned| ==> ReturnOk(s, i))
    && (forall t, u {:trigger PairOk(s, t, u)} :: PairOk(s, t, u))
  }

  lemma StartInv(initial: nat, committed: nat)
    ensures Inv(Start(initial, committed))
  {
  }

  lemma CoveredStays(s: State, s': State, n: nat)
    requires s.done <= s'.done && s'.initial == s.initial && Covered(s, n)
    ensures Covered(s', n)
  {
    if n > s.initial {
      var i :| 0 <= i < |s.done| && s.done[i].target >= n;
      assert s'.done[i] == s.done[i];
    }
  }

  lemma CoveredBelow(s: State, n: nat, m: nat)
    requires n <= m && Covered(s, m)
    ensures Covered(s, n)
  {
    if m > s.initial {
      var i :| 0 <= i < |s.done| && s.done[i].target >= m;
      assert s.done[i].target >= n;
    }
  }

  /** The thread that a step is a step of. */
  function Actor(a: Act): Option<nat> {
    match a
    case Commit(_) => None
    case _ => Some(a.t)
  }

  /** What a step may do to the shared fields, and that it moves no other thread. */
  lemma StepGlobals(s: State, a: Act)
    requires Inv(s) && Enabled(s, a)
    ensures var s' := Do(s, a);
      && s'.initial == s.initial && s.committed <= s'.committed && s.shared <= s'.shared && s.done <= s'.done
      && (s.flushing && !s'.flushing ==> a.Relock? && Holds(At(s, a.t)))
      && (!s.error && s'.error ==> a.Relock? && Holds(At(s, a.t)))
      && forall u: nat :: Actor(a) != Some(u) ==> At(s', u) == At(s, u)
  {
    hide Covered, PairOk;
    if Actor(a).Some? { assert ProcOk(s, Actor(a).value); }
  }

  lemma StepProcOther(s: State, a: Act, t: nat)
    requires Inv(s) && Enabled(s, a) && Actor(a) != Some(t)
    ensures ProcOk(Do(s, a), t)
  {
    hide Covered, Do, FlushOk, ReturnOk;
    StepGlobals(s, a);
    var s', p := Do(s, a), At(s, t);
    assert ProcOk(s, t);
    if p.Flushed? || p.Publishing? || (p.Finished? && p.ok) { CoveredStays(s, s', p.target); }
    if Actor(a).Some? { assert PairOk(s, t, Actor(a).value); }
  }

  lemma StepProcSelf(s: State, a: Act)
    requires Inv(s) && Enabled(s, a) && Actor(a).Some?
    ensures ProcOk(Do(s, a), Actor(a).value)
  {
    hide Covered, PairOk, FlushOk, ReturnOk;
    var s', t := Do(s, a), Actor(a).value;
    assert ProcOk(s, t);
    var p := At(s, t);
    StepGlobals(s, a);
    if p.Flushed? || p.Publishing? || (p.Finished? && p.ok) { CoveredStays(s, s', p.target); }
    if p.Flushing? { EndCovers(s, a); }
  }

  lemma EndCovers(s: State, a: Act)
    requires Enabled(s, a) && Actor(a).Some? && At(s, Actor(a).value).Flushing?
    ensures a.End? && (a.ok ==> Covered(Do(s, a), At(s, a.t).target))
  {
    if a.ok {
      var s' := Do(s, a);
      assert s'.done[|s.done|].target == At(s, a.t).target;
    }
  }

  lemma StepProc(s: State, a: Act, t: nat)
    requires Inv(s) && Enabled(s, a)
    ensures ProcOk(Do(s, a), t)
  {
    hide Inv, ProcOk, Do, Enabled;
    if Actor(a) == Some(t) {
      StepProcSelf(s, a);
    } else {
      StepProcOther(s, a, t);
    }
  }

  /** A thread starts to hold the flag only while it is down. */
  lemma StepHolds(s: State, a: Act)
    requires Inv(s) && Enabled(s, a) && Actor(a).Some?
    ensures var t := Actor(a).value; Holds(At(Do(s, a), t)) ==> Holds(At(s, t)) || !s.flushing
  {
    hide Covered, PairOk, FlushOk, ReturnOk;
  }

  lemma StepPair(s: State, a: Act, t: nat, u: nat)
    requires Inv(s) && Enabled(s, a)
    ensures PairOk(Do(s, a), t, u)
  {
    hide Covered, Do, FlushOk, ReturnOk, Enabled;
    assert PairOk(s, t, u) && PairOk(s, u, t) && ProcOk(s, t) && ProcOk(s, u);
    StepGlobals(s, a);
    if Actor(a).Some? { StepHolds(s, a); }
  }

  lemma StepWatermarks(s: State, a: Act)
    requires Inv(s) && Enabled(s, a)
    ensures var s' := Do(s, a);
      && s'.initial <= s'.flushed <= s'.shared && s.shared <= s'.shared && s.flushed <= s'.flushed
      && Covered(s', s'.shared) && Covered(s', s'.flushed)
  {
    hide Covered, PairOk, FlushOk, ReturnOk;
    var s' := Do(s, a);
    StepGlobals(s, a);
    CoveredStays(s, s', s.shared);
    CoveredStays(s, s', s.flushed);
    if Actor(a).Some? {
      assert ProcOk(s, Actor(a).value);
      var p := At(s, Actor(a).value);
      if p.Publishing? || (p.Finished? && p.ok) { CoveredStays(s, s', p.target); }
    }
  }

  lemma StepErrors(s: State, a: Act)
    requires Inv(s) && Enabled(s, a)
    ensures Do(s, a).failures == Do(s, a).errors + (if Do(s, a).error then 1 else 0)
  {
    hide Covered, PairOk, FlushOk, ReturnOk;
    if Actor(a).Some? { assert ProcOk(s, Actor(a).value); }
  }

  lemma StepFlushes(s: State, a: Act, i: nat)
    requires Inv(s) && Enabled(s, a) && i < |Do(s, a).done|
    ensures FlushOk(Do(s, a), i)
  {
    hide Covered, PairOk, ReturnOk;
    if i < |s.done| { assert FlushOk(s, i); }
    if Actor(a).Some? { assert ProcOk(s, Actor(a).value); }
  }

  /** What a step returns: Ok only for a covered number. */
  lemma StepReturns(s: State, a: Act)
    requires Inv(s) && Enabled(s, a)
    ensures var s' := Do(s, a);
      && s.returned <= s'.returned && |s'.returned| <= |s.returned| + 1
      && (|s'.returned| > |s.returned| && s'.returned[|s.returned|].err == Ok ==>
        Covered(s', s'.returned[|s.returned|].seqNo))
  {
    hide Covered;
    if a.Check? && s.flushed >= At(s, a.t).seqNo {
      CoveredBelow(s, At(s, a.t).seqNo, s.flushed);
      CoveredStays(s, Do(s, a), At(s, a.t).seqNo);
    }
  }

  lemma StepKeeps(s: State, a: Act)
    requires Inv(s) && Enabled(s, a)
    ensures Inv(Do(s, a))
  {
    hide Covered, Do, Enabled, ProcOk, FlushOk, PairOk;
    var s' := Do(s, a);
    StepGlobals(s, a);
    StepWatermarks(s, a);
    StepErrors(s, a);
    StepReturns(s, a);
    forall t ensures ProcOk(s', t) { StepProc(s, a, t); }
    forall t, u ensures PairOk(s', t, u) { StepPair(s, a, t, u); }
    forall i | 0 <= i < |s'.done| ensures FlushOk(s', i) { StepFlushes(s, a, i); }
    forall i | 0 <= i < |s'.returned| ensures ReturnOk(s', i) {
      if i < |s.returned| {
        assert ReturnOk(s, i);
        if s.returned[i].err == Ok { CoveredStays(s, s', s.returned[i].seqNo); }
      }
    }
  }

  predicate IsRun(s: State, acts: seq<Act>, s': State)
    decreases |acts|
  {
    if acts == [] then s == s' else Enabled(s, acts[0]) && IsRun(Do(s, acts[0]), acts[1..], s')
  }

  lemma {:induction false} RunKeeps(s: State, acts: seq<Act>, s': State)
    requires Inv(s) && IsRun(s, acts, s')
    ensures Inv(s') && s'.initial == s.initial && s.shared <= s'.shared && s.flushed <= s'.flushed
    decreases |acts|
  {
    hide Inv, Do;
    if acts != [] {
      StepKeeps(s, acts[0]);
      StepWatermarks(s, acts[0]);
      StepSame(s, acts[0]);
      RunKeeps(Do(s, acts[0]), acts[1..], s');
    }
  }

  lemma StepSame(s: State, a: Act)
    requires Enabled(s, a)
    ensures Do(s, a).initial == s.initial
  {
  }

  /** Under any interleaving, a wait that returned Ok for n was covered: n was under the first watermark,
      or some full flush that succeeded had begun when the committed number was at least n. */
  lemma FlushThroughSafe(initial: nat, committed: nat, acts: seq<Act>, s: State, i: nat)
    requires IsRun(Start(initial, committed), acts, s) && i < |s.returned| && s.returned[i].err == Ok
    ensures s.returned[i].seqNo <= initial || exists j :: 0 <= j < |s.done| && s.done[j].begun >= s.returned[i].seqNo
  {
    StartInv(initial, committed);
    RunKeeps(Start(initial, committed), acts, s);
    assert ReturnOk(s, i);
    var n := s.returned[i].seqNo;
    if n > initial {
      var j :| 0 <= j < |s.done| && s.done[j].target >= n;
      assert FlushOk(s, j) && s.done[j].begun >= n;
    }
  }

  /** The watermark only rises and never passes what a successful flush had promised beforehand. */
  lemma WatermarkSafe(s: State, acts: seq<Act>, s': State)
    requires Inv(s) && IsRun(s, acts, s')
    ensures s.shared <= s'.shared && s.flushed <= s'.flushed <= s'.shared
    ensures s'.shared <= s'.initial
      || (exists j :: 0 <= j < |s'.done| && s'.shared <= s'.done[j].target <= s'.done[j].begun)
  {
    RunKeeps(s, acts, s');
    if s'.shared > s'.initial {
      var j :| 0 <= j < |s'.done| && s'.done[j].target >= s'.shared;
      assert FlushOk(s', j);
    }
  }

  /** Leaders and the background flusher exclude one another, and each failed leader's error reaches at
      most one waiter. */
  lemma OneFlusher(initial: nat, committed: nat, acts: seq<Act>, s: State, t: nat, u: nat)
    requires IsRun(Start(initial, committed), acts, s) && t != u
    ensures !(Holds(At(s, t)) && Holds(At(s, u)))
    ensures s.failures == s.errors + (if s.error then 1 else 0)
  {
    StartInv(initial, committed);
    RunKeeps(Start(initial, committed), acts, s);
    assert PairOk(s, t, u);
  }

  // ---- what a wait is told, and when ----

  /** What thread t is told by this step, if anything. */
  function Told(s: State, a: Act): seq<Return>
    requires Enabled(s, a)
  {
    Do(s, a).returned[|s.returned|..]
  }

  /** Earlier answers stand. A pass of the loop answers Ok exactly when the number is under the watermark, and an
      error exactly when it is not and one is pending, which is then taken; only a timeout answers Timeout. */
  lemma AnswersExact(s: State, a: Act)
    requires Enabled(s, a)
    ensures |s.returned| <= |Do(s, a).returned| && Do(s, a).returned == s.returned + Told(s, a)
    ensures Told(s, a) == (
      if a.Check? && s.flushed >= At(s, a.t).seqNo then [Return(At(s, a.t).seqNo, Ok)]
      else if a.Check? && s.error then [Return(At(s, a.t).seqNo, IoError)]
      else if a.TimeOut? then [Return(At(s, a.t).seqNo, Timeout)]
      else [])
    ensures Told(s, a) != [] ==> At(Do(s, a), a.t) == Idle
    ensures s.error && !Do(s, a).error <==> s.error && Told(s, a) != [] && Told(s, a)[0].err == IoError
  {
    assert s.returned[..] == s.returned + [];
    forall r: Return ensures (s.returned + [r])[|s.returned|..] == [r] {
    }
  }

  /** A wait that gets no answer flushes itself when nobody else does, and sleeps only while somebody does. */
  lemma CheckLeads(s: State, t: nat)
    requires At(s, t).Waiting? && Told(s, Check(t)) == []
    ensures At(s, t).seqNo > s.flushed
    ensures if s.flushing then At(Do(s, Check(t)), t) == Asleep(At(s, t).seqNo)
            else At(Do(s, Check(t)), t) == Started(Leader(At(s, t).seqNo)) && Do(s, Check(t)).flushing
  {
    AnswersExact(s, Check(t));
    assert |Do(s, Check(t)).returned| == |s.returned|;
  }

  /** A flush that is over gives the flag back; a success raises the watermark at least to its target, and a leader's
      failure leaves an error for the next wait that it concerns. */
  lemma RelockReports(s: State, t: nat)
    requires At(s, t).Finished? && At(s, t).role != Direct
    ensures var p, s' := At(s, t), Do(s, Relock(t));
      && !s'.flushing && s'.flushed >= s.flushed && s'.shared == s.shared
      && (p.ok ==> s'.flushed >= p.target && (s'.flushed == p.target || s'.flushed == s.flushed))
      && (!p.ok ==> s'.flushed == s.flushed)
      && (s'.error <==> s.error || (!p.ok && p.role.Leader?))
      && At(s', t) == (if p.role.Leader? then Waiting(p.role.seqNo) else Idle)
  {
  }

  /** A leader at any point of its flush: the snapshot, once taken, is no smaller than its number. */
  predicate Leads(s: State, t: nat, n: nat) {
    var p := At(s, t);
    && Exclusive(p) && p.role == Leader(n)
    && (!p.Started? && !(p.Finished? && !p.ok) ==> p.target >= n)
  }

  predicate OthersOnly(acts: seq<Act>, t: nat) {
    forall i :: 0 <= i < |acts| ==> Actor(acts[i]) != Some(t)
  }

  predicate NoEnd(acts: seq<Act>, t: nat) {
    forall i :: 0 <= i < |acts| ==> acts[i] != Relock(t)
  }

  lemma LeadsStep(s: State, a: Act, t: nat, n: nat)
    requires Inv(s) && Enabled(s, a) && Leads(s, t, n) && n <= s.committed && a != Relock(t)
    ensures Leads(Do(s, a), t, n)
  {
    hide Inv;
    StepGlobals(s, a);
  }

  lemma {:induction false} LeadsRun(s: State, acts: seq<Act>, s': State, t: nat, n: nat)
    requires Inv(s) && IsRun(s, acts, s') && Leads(s, t, n) && n <= s.committed && NoEnd(acts, t)
    ensures Inv(s') && Leads(s', t, n)
    decreases |acts|
  {
    hide Inv, Do, Leads, Enabled;
    if acts != [] {
      StepKeeps(s, acts[0]);
      StepGlobals(s, acts[0]);
      LeadsStep(s, acts[0], t, n);
      assert forall i :: 0 <= i < |acts| - 1 ==> acts[1..][i] == acts[i + 1];
      LeadsRun(Do(s, acts[0]), acts[1..], s', t, n);
    }
  }

  lemma {:induction false} OthersRun(s: State, acts: seq<Act>, s': State, t: nat)
    requires Inv(s) && IsRun(s, acts, s') && OthersOnly(acts, t)
    ensures At(s', t) == At(s, t) && s.flushed <= s'.flushed
    decreases |acts|
  {
    hide Inv, Do, Enabled;
    if acts != [] {
      StepKeeps(s, acts[0]);
      StepGlobals(s, acts[0]);
      StepWatermarks(s, acts[0]);
      assert forall i :: 0 <= i < |acts| - 1 ==> acts[1..][i] == acts[i + 1];
      OthersRun(Do(s, acts[0]), acts[1..], s', t);
    }
  }

  /** A thread that leads the flush for a number that was committed by then, whatever the others do meanwhile: once its
      flush has ended well, its next look under the mutex answers Ok. */
  lemma LeaderAnswered(s: State, t: nat, n: nat, flush: seq<Act>, s1: State, between: seq<Act>, s2: State)
    requires Inv(s) && At(s, t) == Started(Leader(n)) && n <= s.committed
    requires IsRun(s, flush, s1) && NoEnd(flush, t) && At(s1, t).Finished? && At(s1, t).ok
    requires IsRun(Do(s1, Relock(t)), between, s2) && OthersOnly(between, t)
    ensures Enabled(s2, Check(t)) && Told(s2, Check(t)) == [Return(n, Ok)]
  {
    hide Inv, Do, IsRun;
    LeadsRun(s, flush, s1, t, n);
    StepKeeps(s1, Relock(t));
    RelockReports(s1, t);
    OthersRun(Do(s1, Relock(t)), between, s2, t);
    AnswersExact(s2, Check(t));
  }

  /** A flush counts as failed only if the flush itself has failed, never for what publishing its target meets. */
  lemma OnlyFlushFails(s: State, a: Act, t: nat)
    requires Enabled(s, a) && At(Do(s, a), t).Finished? && !At(Do(s, a), t).ok
    ensures At(s, t) == At(Do(s, a), t) || a == End(t, false)
  {
  }

  ghost predicate FlagHeld(s: State) {
    s.flushing ==> exists t :: Holds(At(s, t))
  }

  lemma FlagStep(s: State, a: Act)
    requires Inv(s) && FlagHeld(s) && Enabled(s, a)
    ensures FlagHeld(Do(s, a))
  {
    hide Covered, PairOk, FlushOk, ReturnOk;
    var s' := Do(s, a);
    StepGlobals(s, a);
    if s'.flushing {
      if s.flushing {
        var t :| Holds(At(s, t));
        assert PairOk(s, t, if Actor(a).Some? then Actor(a).value else t);
        assert Holds(At(s', t));
      } else {
        assert Holds(At(s', a.t));
      }
    }
  }

  /** Under any interleaving the flushing flag is up only while some thread is in a flush that will take it down. */
  lemma FlagRun(initial: nat, committed: nat, acts: seq<Act>, s: State)
    requires IsRun(Start(initial, committed), acts, s)
    ensures FlagHeld(s)
  {
    StartInv(initial, committed);
    FlagOver(Start(initial, committed), acts, s);
  }

  lemma {:induction false} FlagOver(s: State, acts: seq<Act>, s': State)
    requires Inv(s) && FlagHeld(s) && IsRun(s, acts, s')
    ensures FlagHeld(s')
    decreases |acts|
  {
    hide Inv, Do, FlagHeld;
    if acts != [] {
      StepKeeps(s, acts[0]);
      FlagStep(s, acts[0]);
      FlagOver(Do(s, acts[0]), acts[1..], s');
    }
  }
}
