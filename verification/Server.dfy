/** Serve, Close and Shutdown as interleaved atomic steps around a mutex, an atomic flag and a
    once-only close of each listener. */
module Server {
  import opened Bytes

  type Id = nat

  datatype Thread = ServeCall(i: Id) | CloseCall(c: Id)

  datatype Ret = ErrServerClosed | OtherError

  /** Where a Serve call is. `closed` records that its Accept failed on a closed listener. */
  datatype ServePc =
    | Starting                            // before trackListener(&l, true) locks
    | Tracking                            // locked, before reading the flag
    | Inserting                           // flag was clear
    | Tracked(ok: bool)                   // before unlocking
    | Accepting
    | AcceptFailed(closed: bool, timeout: bool)  // before reading the flag
    | Leaving(ret: Ret, closed: bool)     // before trackListener(&l, false) locks
    | Untracking(ret: Ret, closed: bool)  // locked, before deleting
    | Untracked(ret: Ret, closed: bool)   // before unlocking
    | Closing(ret: Ret, closed: bool)     // before the once of the deferred l.Close()
    | InClose(ret: Ret, closed: bool)     // inside the once, before the underlying Close
    | AfterClose(ret: Ret, closed: bool)  // the underlying Close has run
    | Returned(ret: Ret, closed: bool)

  /** Where a Close or Shutdown call is. */
  datatype CloserPc =
    | Called                // before storing the flag
    | Waiting               // before locking
    | Scanning              // locked, before taking the next listener
    | ClosingOne(l: Id)     // before the once of (*ln).Close()
    | InCloseOne(l: Id)     // inside the once, before the underlying Close
    | AfterCloseOne(l: Id)  // the underlying Close has run
    | Deleting(l: Id)       // before deleting the listener
    | Unlocking
    | Gone                  // the mutex is released

  /** sync.Once; `runner` names the call inside it. */
  datatype Once = Fresh | Running(runner: Thread) | Finished

  /** A Serve call and its wrapped listener; `closes` counts runs of the underlying Close. */
  datatype Serving = Serving(pc: ServePc, once: Once, closes: nat)

  datatype State = State(
    mu: Option<Thread>,
    flag: bool,
    listeners: set<Id>,
    serving: map<Id, Serving>,
    closers: map<Id, CloserPc>)

  ghost predicate Init(s: State)
  {
    && s.mu.None? && !s.flag && s.listeners == {}
    && (forall i :: i in s.serving ==> s.serving[i] == Serving(Starting, Fresh, 0))
    && (forall c :: c in s.closers ==> s.closers[c] == Called)
  }

  /** What the environment decides: how Accept ends, which listener the map yields next. */
  datatype Choice = Accepted | Refused(timeout: bool) | Pick(l: Id)

  function Goto(s: State, i: Id, pc: ServePc): State
    requires i in s.serving
  {
    s.(serving := s.serving[i := s.serving[i].(pc := pc)])
  }

  function SetOnce(s: State, i: Id, once: Once): State
    requires i in s.serving
  {
    s.(serving := s.serving[i := s.serving[i].(once := once)])
  }

  function RunClose(s: State, i: Id): State
    requires i in s.serving
  {
    s.(serving := s.serving[i := s.serving[i].(closes := s.serving[i].closes + 1)])
  }

  function Jump(s: State, c: Id, pc: CloserPc): State
  {
    s.(closers := s.closers[c := pc])
  }

  /** The next atomic step of a Serve call; `None` when it is blocked or has returned. */
  function ServeStep(s: State, i: Id, choice: Choice): Option<State>
    requires i in s.serving
  {
    var me := ServeCall(i);
    match s.serving[i].pc
    case Starting => if s.mu.Some? then None else Some(Goto(s, i, Tracking).(mu := Some(me)))
    case Tracking => Some(Goto(s, i, if s.flag then Tracked(false) else Inserting))
    case Inserting => Some(Goto(s, i, Tracked(true)).(listeners := s.listeners + {i}))
    case Tracked(ok) =>
      Some(Goto(s, i, if ok then Accepting else Closing(ErrServerClosed, false)).(mu := None))
    case Accepting =>
      if s.serving[i].closes > 0 then Some(Goto(s, i, AcceptFailed(true, false)))
      else if choice.Refused? then Some(Goto(s, i, AcceptFailed(false, choice.timeout)))
      else Some(s)
    case AcceptFailed(closed, timeout) =>
      if s.flag then Some(Goto(s, i, Leaving(ErrServerClosed, closed)))
      else if timeout then Some(Goto(s, i, Accepting))
      else Some(Goto(s, i, Leaving(OtherError, closed)))
    case Leaving(ret, closed) =>
      if s.mu.Some? then None else Some(Goto(s, i, Untracking(ret, closed)).(mu := Some(me)))
    case Untracking(ret, closed) =>
      Some(Goto(s, i, Untracked(ret, closed)).(listeners := s.listeners - {i}))
    case Untracked(ret, closed) => Some(Goto(s, i, Closing(ret, closed)).(mu := None))
    case Closing(ret, closed) =>
      (match s.serving[i].once
       case Fresh => Some(SetOnce(Goto(s, i, InClose(ret, closed)), i, Running(me)))
       case Running(_) => None
       case Finished => Some(Goto(s, i, Returned(ret, closed))))
    case InClose(ret, closed) => Some(RunClose(Goto(s, i, AfterClose(ret, closed)), i))
    case AfterClose(ret, closed) => Some(SetOnce(Goto(s, i, Returned(ret, closed)), i, Finished))
    case Returned(_, _) => None
  }

  /** The next atomic step of a Close or Shutdown call. */
  function CloseStep(s: State, c: Id, choice: Choice): Option<State>
    requires c in s.closers
  {
    var me := CloseCall(c);
    match s.closers[c]
    case Called => Some(Jump(s, c, Waiting).(flag := true))
    case Waiting => if s.mu.Some? then None else Some(Jump(s, c, Scanning).(mu := Some(me)))
    case Scanning =>
      if s.listeners == {} then Some(Jump(s, c, Unlocking))
      else if choice.Pick? && choice.l in s.listeners then Some(Jump(s, c, ClosingOne(choice.l)))
      else None
    case ClosingOne(l) =>
      if l !in s.serving then None else
      (match s.serving[l].once
       case Fresh => Some(SetOnce(Jump(s, c, InCloseOne(l)), l, Running(me)))
       case Running(_) => None
       case Finished => Some(Jump(s, c, Deleting(l))))
    case InCloseOne(l) => if l !in s.serving then None else Some(RunClose(Jump(s, c, AfterCloseOne(l)), l))
    case AfterCloseOne(l) => if l !in s.serving then None else Some(SetOnce(Jump(s, c, Deleting(l)), l, Finished))
    case Deleting(l) => Some(Jump(s, c, Scanning).(listeners := s.listeners - {l}))
    case Unlocking => Some(Jump(s, c, Gone).(mu := None))
    case Gone => None
  }

  function Step(s: State, t: Thread, choice: Choice): Option<State>
  {
    match t
    case ServeCall(i) => if i in s.serving then ServeStep(s, i, choice) else None
    case CloseCall(c) => if c in s.closers then CloseStep(s, c, choice) else None
  }

  ghost predicate Next(s: State, s': State)
  {
    exists t, choice :: Step(s, t, choice) == Some(s')
  }

  /** A run: any finite interleaving of steps from an initial state. */
  ghost predicate Run(run: seq<State>)
  {
    run != [] && Init(run[0]) && forall k :: 0 <= k < |run| - 1 ==> StepAt(run, k)
  }

  ghost predicate StepAt(run: seq<State>, k: nat)
    requires k + 1 < |run|
  {
    Next(run[k], run[k + 1])
  }

  // ----- invariant -----

  predicate ServeLocked(pc: ServePc)
  {
    pc.Tracking? || pc.Inserting? || pc.Tracked? || pc.Untracking? || pc.Untracked?
  }

  predicate CloserLocked(pc: CloserPc)
  {
    !pc.Called? && !pc.Waiting? && !pc.Gone?
  }

  /** Serve is past its decision to stop. */
  predicate Exiting(pc: ServePc)
  {
    pc.Leaving? || pc.Untracking? || pc.Untracked? || pc.Closing? || pc.InClose? || pc.AfterClose? || pc.Returned?
  }

  /** Between a successful trackListener(add) and its removal. */
  predicate Registered(pc: ServePc)
  {
    pc == Tracked(true) || pc.Accepting? || pc.AcceptFailed? || pc.Leaving? || pc.Untracking?
  }

  predicate RunsOnce(s: State, t: Thread, i: Id)
  {
    match t
    case ServeCall(j) => j == i && i in s.serving && (s.serving[i].pc.InClose? || s.serving[i].pc.AfterClose?)
    case CloseCall(c) => c in s.closers && (s.closers[c] == InCloseOne(i) || s.closers[c] == AfterCloseOne(i))
  }

  predicate Ran(s: State, t: Thread, i: Id)
  {
    match t
    case ServeCall(j) => i in s.serving && s.serving[i].pc.AfterClose?
    case CloseCall(c) => c in s.closers && s.closers[c] == AfterCloseOne(i)
  }

  predicate OnceInv(s: State, i: Id)
    requires i in s.serving
  {
    var v := s.serving[i];
    match v.once
    case Fresh => v.closes == 0
    case Running(t) => RunsOnce(s, t, i) && v.closes == (if Ran(s, t, i) then 1 else 0)
    case Finished => v.closes == 1
  }

  predicate ServeInv(s: State, i: Id)
    requires i in s.serving
  {
    var v := s.serving[i];
    && (ServeLocked(v.pc) <==> s.mu == Some(ServeCall(i)))
    && (i in s.listeners ==> Registered(v.pc))
    && (Registered(v.pc) ==> i in s.listeners || v.once.Finished?)
    && (v.pc.InClose? || v.pc.AfterClose? ==> v.once == Running(ServeCall(i)))
    && (v.pc.Returned? ==> v.once.Finished?)
    && (!Exiting(v.pc) && !v.once.Fresh? ==> s.flag)
    && (v.pc.AcceptFailed? && v.pc.closed ==> s.flag)
    && (Exiting(v.pc) && v.pc.closed ==> v.pc.ret == ErrServerClosed)
    && (v.pc == Tracked(false) || (Exiting(v.pc) && v.pc.ret == ErrServerClosed) ==> s.flag)
    && OnceInv(s, i)
  }

  predicate CloserInv(s: State, c: Id)
    requires c in s.closers
  {
    var pc := s.closers[c];
    && (CloserLocked(pc) <==> s.mu == Some(CloseCall(c)))
    && (!pc.Called? ==> s.flag)
    && (pc.Unlocking? || pc.Gone? ==> s.listeners == {})
    && (pc.ClosingOne? || pc.InCloseOne? || pc.AfterCloseOne? || pc.Deleting? ==>
          pc.l in s.listeners && pc.l in s.serving)
    && (pc.InCloseOne? || pc.AfterCloseOne? ==> pc.l in s.serving && s.serving[pc.l].once == Running(CloseCall(c)))
    && (pc.Deleting? ==> pc.l in s.serving && s.serving[pc.l].once.Finished?)
  }

  ghost predicate SharedInv(s: State)
  {
    && (s.mu.Some? ==> match s.mu.value
                       case ServeCall(i) => i in s.serving
                       case CloseCall(c) => c in s.closers)
    && s.listeners <= s.serving.Keys
    // a Serve call about to register has seen the flag clear under the mutex
    && (forall i, c :: i in s.serving && c in s.closers && s.serving[i].pc.Inserting? ==> !s.closers[c].Gone?)
  }

  ghost predicate Inv(s: State)
  {
    && SharedInv(s)
    && (forall i :: i in s.serving ==> ServeInv(s, i))
    && (forall c :: c in s.closers ==> CloserInv(s, c))
  }

  lemma InitInv(s: State)
    requires Init(s)
    ensures Inv(s)
  {
  }

  // ----- every step keeps the invariant -----

  /** The lock is kept, taken when free, or released by its holder. */
  predicate LockMove(s: State, s': State, me: Thread)
  {
    s'.mu == s.mu || (s.mu.None? && s'.mu == Some(me)) || (s.mu == Some(me) && s'.mu.None?)
  }

  /** A Serve step touches only its own entry, its own membership and the lock. */
  ghost predicate ServeFrame(s: State, s': State, i: Id)
  {
    && s'.flag == s.flag && s'.closers == s.closers && s'.serving.Keys == s.serving.Keys && i in s.serving
    && (forall j :: j in s.serving && j != i ==> s'.serving[j] == s.serving[j])
    && (forall j :: j != i ==> (j in s'.listeners <==> j in s.listeners))
    && LockMove(s, s', ServeCall(i))
  }

  lemma EnterFrame(s: State, i: Id, choice: Choice, s': State)
    requires i in s.serving && ServeInv(s, i) && !Exiting(s.serving[i].pc) && ServeStep(s, i, choice) == Some(s')
    ensures ServeFrame(s, s', i)
  {
  }

  lemma ExitFrame(s: State, i: Id, choice: Choice, s': State)
    requires i in s.serving && ServeInv(s, i) && Exiting(s.serving[i].pc) && ServeStep(s, i, choice) == Some(s')
    ensures ServeFrame(s, s', i)
  {
  }

  lemma ServeFrames(s: State, i: Id, choice: Choice, s': State)
    requires Inv(s) && i in s.serving && ServeStep(s, i, choice) == Some(s')
    ensures ServeFrame(s, s', i)
  {
    if Exiting(s.serving[i].pc) {
      ExitFrame(s, i, choice, s');
    } else {
      EnterFrame(s, i, choice, s');
    }
  }

  lemma ServeEnters(s: State, i: Id, choice: Choice, s': State)
    requires Inv(s) && i in s.serving && !Exiting(s.serving[i].pc) && ServeStep(s, i, choice) == Some(s')
    ensures ServeInv(s', i)
  {
    assert ServeInv(s, i);
  }

  /** Unregistering, under the mutex. */
  predicate Unregistering(pc: ServePc)
  {
    pc.Leaving? || pc.Untracking? || pc.Untracked?
  }

  lemma ServeUnregisters(s: State, i: Id, choice: Choice, s': State)
    requires Inv(s) && i in s.serving && Unregistering(s.serving[i].pc) && ServeStep(s, i, choice) == Some(s')
    ensures ServeInv(s', i)
  {
    assert ServeInv(s, i);
  }

  lemma ServeCloses(s: State, i: Id, choice: Choice, s': State)
    requires Inv(s) && i in s.serving && ServeStep(s, i, choice) == Some(s')
    requires s.serving[i].pc.Closing? || s.serving[i].pc.InClose? || s.serving[i].pc.AfterClose?
    ensures ServeInv(s', i)
  {
    assert ServeInv(s, i);
  }

  lemma ServeKeepsServe(s: State, i: Id, s': State, j: Id)
    requires Inv(s) && ServeFrame(s, s', i) && j in s.serving && j != i
    ensures ServeInv(s', j)
  {
    assert ServeInv(s, j);
  }

  lemma ServeKeepsCloser(s: State, i: Id, choice: Choice, s': State, c: Id)
    requires Inv(s) && i in s.serving && ServeStep(s, i, choice) == Some(s') && ServeFrame(s, s', i)
    requires c in s.closers
    ensures CloserInv(s', c)
  {
    assert ServeInv(s, i) && CloserInv(s, c);
  }

  lemma ServeKeepsShared(s: State, i: Id, choice: Choice, s': State)
    requires Inv(s) && i in s.serving && ServeStep(s, i, choice) == Some(s') && ServeFrame(s, s', i)
    ensures SharedInv(s')
  {
    forall j, c | j in s'.serving && c in s'.closers && s'.serving[j].pc.Inserting?
      ensures !s'.closers[c].Gone?
    {
      assert CloserInv(s, c) && ServeInv(s, i);
    }
  }

  lemma ServeInvariant(s: State, i: Id, choice: Choice, s': State)
    requires Inv(s) && i in s.serving && ServeStep(s, i, choice) == Some(s')
    ensures Inv(s')
  {
    ServeFrames(s, i, choice, s');
    ServeKeepsShared(s, i, choice, s');
    forall j | j in s'.serving
      ensures ServeInv(s', j)
    {
      if j != i {
        ServeKeepsServe(s, i, s', j);
      } else if Unregistering(s.serving[i].pc) {
        ServeUnregisters(s, i, choice, s');
      } else if Exiting(s.serving[i].pc) {
        ServeCloses(s, i, choice, s');
      } else {
        ServeEnters(s, i, choice, s');
      }
    }
    forall c | c in s'.closers
      ensures CloserInv(s', c)
    {
      ServeKeepsCloser(s, i, choice, s', c);
    }
  }

  /** A Close step touches its own position, the lock, the flag, and one listener it owns. */
  ghost predicate CloseFrame(s: State, s': State, c: Id)
  {
    && (s.flag ==> s'.flag) && s'.closers.Keys == s.closers.Keys && s'.serving.Keys == s.serving.Keys
    && c in s.closers && !s.closers[c].Gone?
    && (forall d :: d in s.closers && d != c ==> s'.closers[d] == s.closers[d])
    && (forall j :: j in s.serving ==>
          s'.serving[j].pc == s.serving[j].pc && s.serving[j].closes <= s'.serving[j].closes)
    && s'.listeners <= s.listeners
    && LockMove(s, s', CloseCall(c))
  }

  lemma CloseFrames(s: State, c: Id, choice: Choice, s': State)
    requires Inv(s) && c in s.closers && CloseStep(s, c, choice) == Some(s')
    ensures CloseFrame(s, s', c)
  {
    assert CloserInv(s, c);
  }

  lemma CloseKeepsSelf(s: State, c: Id, choice: Choice, s': State)
    requires Inv(s) && c in s.closers && CloseStep(s, c, choice) == Some(s')
    ensures c in s'.closers && CloserInv(s', c)
  {
    assert CloserInv(s, c);
  }

  lemma CloseKeepsCloser(s: State, c: Id, choice: Choice, s': State, d: Id)
    requires Inv(s) && c in s.closers && CloseStep(s, c, choice) == Some(s') && CloseFrame(s, s', c)
    requires d in s.closers && d != c
    ensures CloserInv(s', d)
  {
    assert CloserInv(s, c) && CloserInv(s, d);
  }

  predicate WorksOn(pc: CloserPc, i: Id)
  {
    (pc.ClosingOne? || pc.InCloseOne? || pc.AfterCloseOne? || pc.Deleting?) && pc.l == i
  }

  lemma CloseKeepsOther(s: State, c: Id, choice: Choice, s': State, i: Id)
    requires Inv(s) && c in s.closers && CloseStep(s, c, choice) == Some(s') && CloseFrame(s, s', c)
    requires i in s.serving && !WorksOn(s.closers[c], i)
    ensures ServeInv(s', i)
  {
    assert CloserInv(s, c) && ServeInv(s, i);
    assert s'.serving[i] == s.serving[i];
  }

  lemma CloseKeepsOwn(s: State, c: Id, choice: Choice, s': State, i: Id)
    requires Inv(s) && c in s.closers && CloseStep(s, c, choice) == Some(s') && CloseFrame(s, s', c)
    requires i in s.serving && WorksOn(s.closers[c], i)
    ensures ServeInv(s', i)
  {
    assert CloserInv(s, c) && ServeInv(s, i);
  }

  lemma CloseKeepsShared(s: State, c: Id, choice: Choice, s': State)
    requires Inv(s) && c in s.closers && CloseStep(s, c, choice) == Some(s') && CloseFrame(s, s', c)
    ensures SharedInv(s')
  {
    forall i, d | i in s'.serving && d in s'.closers && s'.serving[i].pc.Inserting?
      ensures !s'.closers[d].Gone?
    {
      assert CloserInv(s, c) && ServeInv(s, i);
    }
  }

  lemma CloseInvariant(s: State, c: Id, choice: Choice, s': State)
    requires Inv(s) && c in s.closers && CloseStep(s, c, choice) == Some(s')
    ensures Inv(s')
  {
    CloseFrames(s, c, choice, s');
    CloseKeepsShared(s, c, choice, s');
    forall i | i in s'.serving
      ensures ServeInv(s', i)
    {
      if WorksOn(s.closers[c], i) {
        CloseKeepsOwn(s, c, choice, s', i);
      } else {
        CloseKeepsOther(s, c, choice, s', i);
      }
    }
    forall d | d in s'.closers
      ensures CloserInv(s', d)
    {
      if d == c {
        CloseKeepsSelf(s, c, choice, s');
      } else {
        CloseKeepsCloser(s, c, choice, s', d);
      }
    }
  }

  lemma NextInvariant(s: State, s': State)
    requires Inv(s) && Next(s, s')
    ensures Inv(s')
  {
    var t, choice :| Step(s, t, choice) == Some(s');
    match t
    case ServeCall(i) => ServeInvariant(s, i, choice, s');
    case CloseCall(c) => CloseInvariant(s, c, choice, s');
  }

  lemma {:induction false} RunInvariant(run: seq<State>, k: nat)
    requires Run(run) && k < |run|
    ensures Inv(run[k])
  {
    if k > 0 {
      RunInvariant(run, k - 1);
      RunNext(run, k);
      NextInvariant(run[k - 1], run[k]);
    } else {
      InitInv(run[0]);
    }
  }

  // ----- safety over whole runs -----

  ghost predicate SomeGone(s: State)
  {
    exists c :: c in s.closers && s.closers[c].Gone?
  }

  lemma RunNext(run: seq<State>, k: nat)
    requires Run(run) && 0 < k < |run|
    ensures Next(run[k - 1], run[k])
  {
    assert StepAt(run, k - 1);
  }

  lemma GoneNext(s: State, s': State)
    requires Inv(s) && Next(s, s') && SomeGone(s)
    ensures SomeGone(s')
  {
    var d :| d in s.closers && s.closers[d].Gone?;
    var t, choice :| Step(s, t, choice) == Some(s');
    match t
    case ServeCall(i) => ServeFrames(s, i, choice, s');
    case CloseCall(c) => CloseFrames(s, c, choice, s');
    assert d in s'.closers && s'.closers[d].Gone?;
  }

  /** Consecutive states of a run: the first satisfies the invariant. */
  lemma RunStep(run: seq<State>, k: nat, s: State, s': State)
    requires Run(run) && k + 1 < |run| && s == run[k] && s' == run[k + 1]
    ensures Inv(s) && Next(s, s')
  {
    RunInvariant(run, k);
    RunNext(run, k + 1);
  }

  /** What every step keeps, a run keeps. */
  lemma {:induction false} Persists(run: seq<State>, k: nat, m: nat, p: State -> bool)
    requires k <= m < |run| && p(run[k])
    requires forall j :: k <= j < m && p(run[j]) ==> p(run[j + 1])
    ensures p(run[m])
  {
    if k == m {
    } else {
      Persists(run, k, m - 1, p);
      assert p(run[(m - 1) + 1]);
    }
  }

  lemma GoneAt(run: seq<State>, k: nat)
    requires Run(run) && k + 1 < |run| && SomeGone(run[k])
    ensures SomeGone(run[k + 1])
  {
    var s, s' := run[k], run[k + 1];
    RunStep(run, k, s, s');
    GoneNext(s, s');
  }

  lemma StaysGone(run: seq<State>, k: nat, m: nat)
    requires Run(run) && k <= m < |run| && SomeGone(run[k])
    ensures SomeGone(run[m])
  {
    forall j | k <= j < m && SomeGone(run[j])
      ensures SomeGone(run[j + 1])
    {
      GoneAt(run, j);
    }
    Persists(run, k, m, (s: State) => SomeGone(s));
  }

  /** Once any Close or Shutdown has released the mutex, no listener is tracked in any later state
      of any run, and no Serve call is left accepting on an open listener. */
  lemma ShutdownSafety(run: seq<State>, k: nat, m: nat)
    requires Run(run) && k <= m < |run| && SomeGone(run[k])
    ensures run[m].flag && run[m].listeners == {}
    ensures forall i :: i in run[m].serving && run[m].serving[i].pc.Accepting? ==> run[m].serving[i].closes == 1
  {
    StaysGone(run, k, m);
    RunInvariant(run, m);
    var s := run[m];
    var c :| c in s.closers && s.closers[c].Gone?;
    assert CloserInv(s, c);
    assert forall i :: i in s.serving ==> ServeInv(s, i);
  }

  /** In every run, a wrapped listener's underlying Close runs at most once, and exactly once by
      the time its Serve call has returned. */
  lemma ClosedOnce(run: seq<State>, k: nat, i: Id)
    requires Run(run) && k < |run| && i in run[k].serving
    ensures run[k].serving[i].closes <= 1
    ensures run[k].serving[i].pc.Returned? ==> run[k].serving[i].closes == 1
  {
    RunInvariant(run, k);
    assert ServeInv(run[k], i);
  }

  /** A Serve call whose listener is closed under it, from the failing Accept on. */
  predicate ClosedUnder(v: Serving)
  {
    (v.pc.Accepting? && v.closes > 0) || (v.pc.AcceptFailed? && v.pc.closed) || (Exiting(v.pc) && v.pc.closed)
  }

  lemma ClosedUnderOwnStep(s: State, i: Id, choice: Choice, s': State)
    requires Inv(s) && i in s.serving && ClosedUnder(s.serving[i]) && ServeStep(s, i, choice) == Some(s')
    ensures i in s'.serving && ClosedUnder(s'.serving[i])
  {
    assert ServeInv(s, i);
  }

  lemma ClosedUnderStays(s: State, s': State, i: Id)
    requires Inv(s) && Next(s, s') && i in s.serving && ClosedUnder(s.serving[i])
    ensures i in s'.serving && ClosedUnder(s'.serving[i])
  {
    var t, choice :| Step(s, t, choice) == Some(s');
    match t
    case ServeCall(j) =>
      if j == i {
        ClosedUnderOwnStep(s, i, choice, s');
      } else {
        ServeFrames(s, j, choice, s');
      }
    case CloseCall(c) => CloseFrames(s, c, choice, s');
  }

  predicate Doomed(s: State, i: Id)
  {
    i in s.serving && ClosedUnder(s.serving[i])
  }

  lemma DoomedAt(run: seq<State>, k: nat, i: Id)
    requires Run(run) && k + 1 < |run| && Doomed(run[k], i)
    ensures Doomed(run[k + 1], i)
  {
    var s, s' := run[k], run[k + 1];
    RunStep(run, k, s, s');
    ClosedUnderStays(s, s', i);
  }

  /** If a Serve call is accepting when its listener has been closed, it returns ErrServerClosed
      whenever it returns. */
  lemma ClosedServeReturns(run: seq<State>, k: nat, m: nat, i: Id)
    requires Run(run) && k <= m < |run| && i in run[k].serving
    requires run[k].serving[i].pc.Accepting? && run[k].serving[i].closes > 0
    ensures i in run[m].serving
    ensures run[m].serving[i].pc.Returned? ==> run[m].serving[i].pc.ret == ErrServerClosed
  {
    forall j | k <= j < m && Doomed(run[j], i)
      ensures Doomed(run[j + 1], i)
    {
      DoomedAt(run, j, i);
    }
    Persists(run, k, m, (s: State) => Doomed(s, i));
    RunInvariant(run, m);
    assert ServeInv(run[m], i);
  }

  /** A Serve call that will find the flag set. */
  predicate TooLate(s: State, i: Id)
  {
    && s.flag && i in s.serving
    && var pc := s.serving[i].pc;
       pc.Starting? || pc.Tracking? || pc == Tracked(false) ||
       (Exiting(pc) && !Registered(pc) && !pc.Untracked? && pc.ret == ErrServerClosed)
  }

  lemma TooLateStays(s: State, s': State, i: Id)
    requires Next(s, s') && TooLate(s, i)
    ensures TooLate(s', i)
  {
  }

  lemma TooLateAt(run: seq<State>, k: nat, i: Id)
    requires Run(run) && k + 1 < |run| && TooLate(run[k], i)
    ensures TooLate(run[k + 1], i)
  {
    var s, s' := run[k], run[k + 1];
    RunStep(run, k, s, s');
    TooLateStays(s, s', i);
  }

  /** A Serve call that starts after the flag was stored is never tracked, and returns
      ErrServerClosed whenever it returns. */
  lemma LateServeReturns(run: seq<State>, k: nat, m: nat, i: Id)
    requires Run(run) && k <= m < |run| && run[k].flag
    requires i in run[k].serving && run[k].serving[i].pc.Starting?
    ensures i in run[m].serving && i !in run[m].listeners
    ensures run[m].serving[i].pc.Returned? ==> run[m].serving[i].pc.ret == ErrServerClosed
  {
    forall j | k <= j < m && TooLate(run[j], i)
      ensures TooLate(run[j + 1], i)
    {
      TooLateAt(run, j, i);
    }
    Persists(run, k, m, (s: State) => TooLate(s, i));
    RunInvariant(run, m);
    assert ServeInv(run[m], i);
  }

  // ----- a running server serves -----

  /** Without a Close or Shutdown no Serve call is turned away: a call that has released the mutex
      and is not exiting has its listener tracked and open, and no call returns ErrServerClosed. */
  lemma ServesWhileOpen(run: seq<State>, k: nat, i: Id)
    requires Run(run) && k < |run| && i in run[k].serving && !run[k].flag
    ensures var v := run[k].serving[i];
            && (v.pc.Accepting? || v.pc.AcceptFailed? ==> i in run[k].listeners && v.closes == 0)
            && (Exiting(v.pc) ==> v.pc.ret == OtherError && !v.pc.closed)
            && v.pc != Tracked(false)
  {
    RunInvariant(run, k);
    assert ServeInv(run[k], i);
  }

  /** The step on which a Serve call decides to stop while the server is open. */
  lemma StopsOnFailure(s: State, s': State, i: Id)
    requires Inv(s) && Next(s, s') && i in s.serving && i in s'.serving
    requires !Exiting(s.serving[i].pc) && Exiting(s'.serving[i].pc) && !s'.flag
    ensures s.serving[i].pc == AcceptFailed(false, false)
  {
    var t, choice :| Step(s, t, choice) == Some(s');
    match t
    case ServeCall(j) =>
      if j == i {
        OwnStop(s, i, choice, s');
      } else {
        ServeFrames(s, j, choice, s');
      }
    case CloseCall(c) => CloseFrames(s, c, choice, s');
  }

  lemma OwnStop(s: State, i: Id, choice: Choice, s': State)
    requires Inv(s) && i in s.serving && ServeStep(s, i, choice) == Some(s') && i in s'.serving
    requires !Exiting(s.serving[i].pc) && Exiting(s'.serving[i].pc) && !s'.flag
    ensures s.serving[i].pc == AcceptFailed(false, false)
  {
    assert ServeInv(s, i);
  }

  lemma StepKeeps(s: State, s': State)
    requires Inv(s) && Next(s, s')
    ensures s'.serving.Keys == s.serving.Keys && (s.flag ==> s'.flag)
  {
    var t, choice :| Step(s, t, choice) == Some(s');
    match t
    case ServeCall(j) => ServeFrames(s, j, choice, s');
    case CloseCall(c) => CloseFrames(s, c, choice, s');
  }

  /** While the server is open, a Serve call stops only because an earlier Accept failed, on an open
      listener and not by a timeout, and it returns that error. */
  lemma {:induction false} StopsOnlyOnFailure(run: seq<State>, k: nat, i: Id)
    requires Run(run) && k < |run| && i in run[k].serving && !run[k].flag && Exiting(run[k].serving[i].pc)
    ensures run[k].serving[i].pc.ret == OtherError
    ensures exists j :: 0 <= j < k && i in run[j].serving && run[j].serving[i].pc == AcceptFailed(false, false)
  {
    ServesWhileOpen(run, k, i);
    if k == 0 {
      assert false;
    } else {
      var s, s' := run[k - 1], run[(k - 1) + 1];
      RunStep(run, k - 1, s, s');
      StepKeeps(s, s');
      if Exiting(s.serving[i].pc) {
        StopsOnlyOnFailure(run, k - 1, i);
      } else {
        StopsOnFailure(s, s', i);
      }
    }
  }

  /** Accept on an open listener may take a connection or fail, and a failure that is no timeout leads
      on an open server to the end of the call. */
  lemma AcceptOutcomes(s: State, i: Id)
    requires i in s.serving && s.serving[i].pc.Accepting? && s.serving[i].closes == 0 && !s.flag
    ensures Step(s, ServeCall(i), Accepted) == Some(s)
    ensures var failed := Step(s, ServeCall(i), Refused(false));
            && failed.Some? && i in failed.value.serving && failed.value.serving[i].pc == AcceptFailed(false, false)
            && var left := Step(failed.value, ServeCall(i), Accepted);
               left.Some? && i in left.value.serving && left.value.serving[i].pc == Leaving(OtherError, false)
    ensures var late := Step(s, ServeCall(i), Refused(true));
            && late.Some? && i in late.value.serving
            && var again := Step(late.value, ServeCall(i), Accepted);
               again.Some? && i in again.value.serving && again.value.serving[i].pc.Accepting?
  {
  }

  /** A Serve call whose Accept has failed for good. */
  predicate GivenUp(s: State, i: Id)
  {
    i in s.serving && (Exiting(s.serving[i].pc) || (s.serving[i].pc.AcceptFailed? && !s.serving[i].pc.timeout))
  }

  lemma GivenUpStays(s: State, s': State, i: Id)
    requires Inv(s) && Next(s, s') && GivenUp(s, i)
    ensures GivenUp(s', i)
  {
    var t, choice :| Step(s, t, choice) == Some(s');
    match t
    case ServeCall(j) =>
      if j == i {
        OwnGivenUp(s, i, choice, s');
      } else {
        ServeFrames(s, j, choice, s');
      }
    case CloseCall(c) => CloseFrames(s, c, choice, s');
  }

  lemma OwnGivenUp(s: State, i: Id, choice: Choice, s': State)
    requires i in s.serving && ServeStep(s, i, choice) == Some(s') && GivenUp(s, i)
    ensures GivenUp(s', i)
  {
  }

  lemma GivenUpAt(run: seq<State>, k: nat, i: Id)
    requires Run(run) && k + 1 < |run| && GivenUp(run[k], i)
    ensures GivenUp(run[k + 1], i)
  {
    var s, s' := run[k], run[k + 1];
    RunStep(run, k, s, s');
    GivenUpStays(s, s', i);
  }

  /** And after such a failure it never accepts again. */
  lemma NeverAcceptsAgain(run: seq<State>, k: nat, m: nat, i: Id)
    requires Run(run) && k <= m < |run| && GivenUp(run[k], i)
    ensures i in run[m].serving && !run[m].serving[i].pc.Accepting?
  {
    forall j | k <= j < m && GivenUp(run[j], i)
      ensures GivenUp(run[j + 1], i)
    {
      GivenUpAt(run, j, i);
    }
    Persists(run, k, m, (s: State) => GivenUp(s, i));
  }

  // ----- no deadlock -----

  /** Neither finished nor waiting in Accept for the network. */
  predicate Busy(s: State, t: Thread)
  {
    match t
    case ServeCall(i) => i in s.serving && !s.serving[i].pc.Returned? && !s.serving[i].pc.Accepting?
    case CloseCall(c) => c in s.closers && !s.closers[c].Gone?
  }

  ghost predicate CanMove(s: State)
  {
    exists t, choice :: Busy(s, t) && Step(s, t, choice).Some?
  }

  lemma OnceRunnerMoves(s: State, l: Id)
    requires Inv(s) && l in s.serving && s.serving[l].once.Running?
    ensures CanMove(s)
  {
    assert ServeInv(s, l);
    var t := s.serving[l].once.runner;
    assert Busy(s, t) && Step(s, t, Accepted).Some?;
  }

  lemma HolderMoves(s: State)
    requires Inv(s) && s.mu.Some?
    ensures CanMove(s)
  {
    var t := s.mu.value;
    match t
    case ServeCall(i) =>
      assert ServeInv(s, i);
      assert Busy(s, t) && Step(s, t, Accepted).Some?;
    case CloseCall(c) =>
      assert CloserInv(s, c);
      if s.closers[c].Scanning? && s.listeners != {} {
        var l :| l in s.listeners;
        assert Busy(s, t) && Step(s, t, Pick(l)).Some?;
      } else if s.closers[c].ClosingOne? && s.serving[s.closers[c].l].once.Running? {
        OnceRunnerMoves(s, s.closers[c].l);
      } else {
        assert Busy(s, t) && Step(s, t, Accepted).Some?;
      }
  }

  /** In every reachable state with a busy call, some busy call can take a step. */
  lemma NoDeadlock(run: seq<State>, k: nat, t: Thread)
    requires Run(run) && k < |run| && Busy(run[k], t)
    ensures CanMove(run[k])
  {
    RunInvariant(run, k);
    var s := run[k];
    if s.mu.Some? {
      HolderMoves(s);
    } else if t.ServeCall? && s.serving[t.i].once.Running? {
      OnceRunnerMoves(s, t.i);
    } else {
      assert t.ServeCall? ==> ServeInv(s, t.i);
      assert t.CloseCall? ==> CloserInv(s, t.c);
      assert Busy(s, t) && Step(s, t, Accepted).Some?;
    }
  }

  // ----- shutdown completes -----

  /** How many steps a call can still take once the listeners are gone. */
  function ServeRank(pc: ServePc): nat
  {
    match pc
    case Starting => 12
    case Tracking => 11
    case Inserting => 10
    case Tracked(_) => 9
    case Accepting => 8
    case AcceptFailed(_, _) => 7
    case Leaving(_, _) => 6
    case Untracking(_, _) => 5
    case Untracked(_, _) => 4
    case Closing(_, _) => 3
    case InClose(_, _) => 2
    case AfterClose(_, _) => 1
    case Returned(_, _) => 0
  }

  function CloserRank(pc: CloserPc): nat
  {
    match pc
    case Called => 4
    case Waiting => 3
    case Unlocking => 1
    case Gone => 0
    case _ => 2
  }

  ghost function Total(m: map<Id, nat>): nat
  {
    if m == map[] then 0 else var k :| k in m; m[k] + Total(m - {k})
  }

  lemma {:induction false} TotalAny(m: map<Id, nat>, k: Id)
    requires k in m
    ensures Total(m) == m[k] + Total(m - {k})
    decreases |m|
  {
    var j :| j in m && Total(m) == m[j] + Total(m - {j});
    if j != k {
      TotalAny(m - {j}, k);
      TotalAny(m - {k}, j);
      assert m - {j} - {k} == m - {k} - {j};
    }
  }

  lemma TotalUpdate(m: map<Id, nat>, k: Id, v: nat)
    requires k in m
    ensures Total(m[k := v]) + m[k] == Total(m) + v
  {
    TotalAny(m, k);
    TotalAny(m[k := v], k);
    assert m[k := v] - {k} == m - {k};
  }

  function ServeRanks(s: State): map<Id, nat>
  {
    map i | i in s.serving :: ServeRank(s.serving[i].pc)
  }

  function CloserRanks(s: State): map<Id, nat>
  {
    map c | c in s.closers :: CloserRank(s.closers[c])
  }

  ghost function Rank(s: State): nat
  {
    Total(ServeRanks(s)) + Total(CloserRanks(s))
  }

  lemma ServeLowers(s: State, i: Id, choice: Choice, s': State)
    requires Inv(s) && SomeGone(s) && i in s.serving && ServeStep(s, i, choice) == Some(s')
    ensures i in s'.serving && ServeRank(s'.serving[i].pc) < ServeRank(s.serving[i].pc)
  {
    if Exiting(s.serving[i].pc) {
      ExitLowers(s, i, choice, s');
    } else {
      var c :| c in s.closers && s.closers[c].Gone?;
      assert CloserInv(s, c);
      EntryLowers(s, i, choice, s');
    }
  }

  lemma ExitLowers(s: State, i: Id, choice: Choice, s': State)
    requires i in s.serving && Exiting(s.serving[i].pc) && ServeStep(s, i, choice) == Some(s')
    ensures i in s'.serving && ServeRank(s'.serving[i].pc) < ServeRank(s.serving[i].pc)
  {
  }

  lemma EntryLowers(s: State, i: Id, choice: Choice, s': State)
    requires i in s.serving && ServeInv(s, i) && !Exiting(s.serving[i].pc) && s.flag && s.listeners == {}
    requires ServeStep(s, i, choice) == Some(s')
    ensures i in s'.serving && ServeRank(s'.serving[i].pc) < ServeRank(s.serving[i].pc)
  {
  }

  lemma CloserLowers(s: State, c: Id, choice: Choice, s': State)
    requires Inv(s) && SomeGone(s) && c in s.closers && CloseStep(s, c, choice) == Some(s')
    ensures c in s'.closers && CloserRank(s'.closers[c]) < CloserRank(s.closers[c])
  {
    var d :| d in s.closers && s.closers[d].Gone?;
    assert CloserInv(s, c) && CloserInv(s, d);
  }

  lemma ServeRankLower(s: State, i: Id, s': State)
    requires ServeFrame(s, s', i) && ServeRank(s'.serving[i].pc) < ServeRank(s.serving[i].pc)
    ensures Rank(s') < Rank(s)
  {
    assert ServeRanks(s') == ServeRanks(s)[i := ServeRank(s'.serving[i].pc)];
    TotalUpdate(ServeRanks(s), i, ServeRank(s'.serving[i].pc));
  }

  lemma CloserRankLower(s: State, c: Id, s': State)
    requires CloseFrame(s, s', c) && CloserRank(s'.closers[c]) < CloserRank(s.closers[c])
    ensures Rank(s') < Rank(s)
  {
    assert ServeRanks(s') == ServeRanks(s);
    assert CloserRanks(s') == CloserRanks(s)[c := CloserRank(s'.closers[c])];
    TotalUpdate(CloserRanks(s), c, CloserRank(s'.closers[c]));
  }

  /** Once a Close or Shutdown has released the mutex, every step lowers the rank. */
  lemma StepLowersRank(s: State, s': State)
    requires Inv(s) && SomeGone(s) && Next(s, s')
    ensures Rank(s') < Rank(s)
  {
    var t, choice :| Step(s, t, choice) == Some(s');
    match t
    case ServeCall(i) =>
      ServeFrames(s, i, choice, s');
      ServeLowers(s, i, choice, s');
      ServeRankLower(s, i, s');
    case CloseCall(c) =>
      CloseFrames(s, c, choice, s');
      CloserLowers(s, c, choice, s');
      CloserRankLower(s, c, s');
  }

  lemma RankAt(run: seq<State>, k: nat)
    requires Run(run) && k + 1 < |run| && SomeGone(run[k])
    ensures Rank(run[k + 1]) < Rank(run[k])
  {
    var s, s' := run[k], run[k + 1];
    RunStep(run, k, s, s');
    StepLowersRank(s, s');
  }

  /** So every run is finite from there on: it takes at most as many more steps as the rank says. */
  lemma {:induction false} BoundedShutdown(run: seq<State>, k: nat, m: nat)
    requires Run(run) && k <= m < |run| && SomeGone(run[k])
    ensures m - k + Rank(run[m]) <= Rank(run[k])
  {
    if k == m {
    } else {
      BoundedShutdown(run, k, m - 1);
      StaysGone(run, k, m - 1);
      RankAt(run, m - 1);
    }
  }

  ghost predicate Quiet(s: State)
  {
    forall s' :: !Next(s, s')
  }

  /** And where it can go no further, every Serve has returned with its listener closed once, and
      every Close and Shutdown is done. */
  lemma ShutdownCompletes(run: seq<State>, k: nat)
    requires Run(run) && k < |run| && SomeGone(run[k])
    requires Quiet(run[|run| - 1])
    ensures var s := run[|run| - 1];
            && (forall i :: i in s.serving ==> s.serving[i].pc.Returned? && s.serving[i].closes == 1)
            && (forall c :: c in s.closers ==> s.closers[c].Gone?)
  {
    var m := |run| - 1;
    var s := run[m];
    forall t
      ensures !Busy(s, t)
    {
      if Busy(s, t) {
        NoDeadlock(run, m, t);
        var u, choice :| Busy(s, u) && Step(s, u, choice).Some?;
        assert Next(s, Step(s, u, choice).value);
      }
    }
    forall i | i in s.serving
      ensures s.serving[i].pc.Returned? && s.serving[i].closes == 1
    {
      assert !Busy(s, ServeCall(i));
      if s.serving[i].pc.Accepting? {
        assert Step(s, ServeCall(i), Accepted).Some?;
        assert Next(s, Step(s, ServeCall(i), Accepted).value);
      }
      ClosedOnce(run, m, i);
    }
    forall c | c in s.closers
      ensures s.closers[c].Gone?
    {
      assert !Busy(s, CloseCall(c));
    }
  }
}
