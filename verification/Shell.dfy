/**
 tsh.c as a concurrent system: the main loop (eval, do_bgfg, waitfg), the SIGCHLD handler, which may
 run between any two of its steps unless the signal is blocked, and the children, which may stop,
 continue or end at any time. Commands, fork results and signals are nondeterministic.
 */
module Shell {
  import opened Common
  import opened JobTable

  /** A child until it is reaped: whether it has stopped, and whether waitpid has said so. */
  datatype Child = Running | Stopped(reported: bool) | Zombie

  /** Where the main loop is. The starred points are the ones where SIGCHLD is blocked. */
  datatype Pc =
    | Prompt                              // at the prompt
    | ToFork(bg: bool, cmd: string)       // * eval, after sigprocmask(SIG_BLOCK)
    | ToAdd(pid: int, bg: bool, cmd: string)  // * eval, after fork
    | ToUnblock(pid: int, bg: bool)       // * eval, after addjob
    | ToFind(byJid: bool, arg: int, fg: bool) // * do_bgfg, after sigprocmask(SIG_BLOCK)
    | ToUnblockFg(pid: int)               // * do_bgfg, after job->state = FG
    | ToEnd                               // * do_bgfg, at the label end
    | Looking(pid: int, i: nat)           // waitfg, inside getjobpid, at slot i
    | Waiting(slot: nat)                  // waitfg, in the loop on job->state

  predicate Blocked(pc: Pc) {
    pc.ToFork? || pc.ToAdd? || pc.ToUnblock? || pc.ToFind? || pc.ToUnblockFg? || pc.ToEnd?
  }

  datatype State = State(t: Table, kids: map<int, Child>, pc: Pc, inHandler: bool, pending: bool, crashed: bool)

  ghost predicate Init(s: State) {
    s == State(Table(seq(MAXJOBS, _ => NO_JOB), 1), map[], Prompt, false, false, false)
  }

  // ---- steps of the main loop ----

  /** A command line that is not a builtin: block SIGCHLD. */
  ghost predicate EvalBlock(s: State, s': State) {
    s.pc.Prompt? && exists bg, cmd :: s' == s.(pc := ToFork(bg, cmd))
  }

  /** fork: a new child, with a pid no unreaped child has, or a failure. */
  ghost predicate Fork(s: State, s': State) {
    && s.pc.ToFork?
    && exists pid: int ::
         || (pid >= 1 && pid !in s.kids
             && s' == s.(kids := s.kids[pid := Running], pc := ToAdd(pid, s.pc.bg, s.pc.cmd)))
         || (pid == -1 && s' == s.(pc := ToAdd(pid, s.pc.bg, s.pc.cmd)))
  }

  ghost predicate AddJobStep(s: State, s': State) {
    && s.pc.ToAdd?
    && s' == s.(t := Added(s.t, s.pc.pid, if s.pc.bg then BG else FG, s.pc.cmd), pc := ToUnblock(s.pc.pid, s.pc.bg))
  }

  ghost predicate EvalUnblock(s: State, s': State) {
    s.pc.ToUnblock? && s' == s.(pc := if s.pc.bg then Prompt else Looking(s.pc.pid, 0))
  }

  /** A builtin fg or bg with a valid argument: block SIGCHLD. */
  ghost predicate BgFgBlock(s: State, s': State) {
    s.pc.Prompt? && exists byJid, arg: int, fg :: arg > 0 && s' == s.(pc := ToFind(byJid, arg, fg))
  }

  /** The slot do_bgfg works on; |jobs| when there is no such job. */
  function Target(jobs: seq<Job>, byJid: bool, arg: int): nat {
    if byJid then FindJid(jobs, 0, arg) else FindPid(jobs, 0, arg)
  }

  ghost predicate BgFgSet(s: State, s': State) {
    && s.pc.ToFind?
    && var jobs := s.t.jobs;
       var i := Target(jobs, s.pc.byJid, s.pc.arg);
       if i == |jobs| then s' == s.(pc := ToEnd)
       else if s.pc.fg then
         s' == s.(t := s.t.(jobs := jobs[i := jobs[i].(state := FG)]), pc := ToUnblockFg(jobs[i].pid))
       else
         s' == s.(t := s.t.(jobs := jobs[i := jobs[i].(state := BG)]), pc := ToEnd)
  }

  ghost predicate BgFgUnblock(s: State, s': State) {
    || (s.pc.ToUnblockFg? && s' == s.(pc := Looking(s.pc.pid, 0)))
    || (s.pc.ToEnd? && s' == s.(pc := Prompt))
  }

  /** One iteration of getjobpid's loop inside waitfg; the handler may run between iterations. */
  ghost predicate Look(s: State, s': State) {
    && s.pc.Looking?
    && var jobs := s.t.jobs;
       if s.pc.pid < 1 || s.pc.i >= |jobs| then s' == s.(pc := Prompt)
       else if jobs[s.pc.i].pid == s.pc.pid then s' == s.(pc := Waiting(s.pc.i))
       else s' == s.(pc := Looking(s.pc.pid, s.pc.i + 1))
  }

  /** One test of waitfg's loop condition. */
  ghost predicate Wait(s: State, s': State) {
    && s.pc.Waiting? && s.pc.slot < |s.t.jobs|
    && s' == if s.t.jobs[s.pc.slot].state == FG then s else s.(pc := Prompt)
  }

  ghost predicate MainStep(s: State, s': State) {
    && !s.inHandler && !s.crashed
    && (EvalBlock(s, s') || Fork(s, s') || AddJobStep(s, s') || EvalUnblock(s, s')
        || BgFgBlock(s, s') || BgFgSet(s, s') || BgFgUnblock(s, s') || Look(s, s') || Wait(s, s'))
  }

  // ---- the SIGCHLD handler ----

  ghost predicate HandlerStart(s: State, s': State) {
    && !s.inHandler && !s.crashed && s.pending && !Blocked(s.pc)
    && s' == s.(inHandler := true, pending := false)
  }

  /** waitpid returned an ended child; with WIFSIGNALED the message reads the job, which must exist. */
  ghost predicate ReapEnded(s: State, s': State, pid: int, signaled: bool) {
    && s.inHandler && !s.crashed && pid in s.kids && s.kids[pid].Zombie?
    && s' == if signaled && FindPid(s.t.jobs, 0, pid) == |s.t.jobs| then s.(crashed := true)
             else s.(kids := s.kids - {pid}, t := Deleted(s.t, pid))
  }

  /** waitpid returned a stopped child: its job, which must exist, is marked. */
  ghost predicate ReapStopped(s: State, s': State, pid: int) {
    && s.inHandler && !s.crashed && pid in s.kids && s.kids[pid] == Stopped(false)
    && var i := FindPid(s.t.jobs, 0, pid);
       s' == if i == |s.t.jobs| then s.(crashed := true)
             else s.(kids := s.kids[pid := Stopped(true)],
                     t := s.t.(jobs := s.t.jobs[i := s.t.jobs[i].(state := ST)]))
  }

  ghost predicate Reap(s: State, s': State) {
    || (exists pid, signaled :: ReapEnded(s, s', pid, signaled))
    || (exists pid :: ReapStopped(s, s', pid))
  }

  ghost predicate HandlerEnd(s: State, s': State) {
    && s.inHandler && !s.crashed
    && (forall pid :: pid in s.kids ==> !s.kids[pid].Zombie? && s.kids[pid] != Stopped(false))
    && s' == s.(inHandler := false)
  }

  // ---- the children ----

  ghost predicate ChildStep(s: State, s': State) {
    exists pid ::
      && pid in s.kids
      && (|| (!s.kids[pid].Zombie? && s' == s.(kids := s.kids[pid := Zombie], pending := true))
          || (s.kids[pid].Running? && s' == s.(kids := s.kids[pid := Stopped(false)], pending := true))
          || (s.kids[pid].Stopped? && s' == s.(kids := s.kids[pid := Running], pending := true)))
  }

  ghost predicate Next(s: State, s': State) {
    || MainStep(s, s')
    || HandlerStart(s, s') || Reap(s, s') || HandlerEnd(s, s')
    || ChildStep(s, s')
  }

  // ---- the invariant ----

  ghost predicate SlotOk(j: Job) {
    if j.pid == 0 then j == NO_JOB else j.pid >= 1 && j.jid >= 1 && j.state != UNDEF
  }

  ghost predicate TableOk(t: Table) {
    && |t.jobs| == MAXJOBS && t.nextJid >= 1
    && (forall i {:trigger t.jobs[i]} :: 0 <= i < MAXJOBS ==> SlotOk(t.jobs[i]))
    && (forall i, j {:trigger t.jobs[i], t.jobs[j]} :: 0 <= i < j < MAXJOBS ==> t.jobs[i].pid != 0 ==>
          t.jobs[i].pid != t.jobs[j].pid)
  }

  ghost function Pids(jobs: seq<Job>): set<int> {
    set i | 0 <= i < |jobs| && jobs[i].pid != 0 :: jobs[i].pid
  }

  /** The child that is forked but not yet in the table. */
  ghost function Unlisted(pc: Pc): set<int> {
    if pc.ToAdd? && pc.pid >= 1 then {pc.pid} else {}
  }

  /** Which slot may hold a foreground job, seen from where the main loop is. */
  ghost predicate MayBeFg(jobs: seq<Job>, pc: Pc, i: int)
    requires 0 <= i < |jobs|
  {
    match pc
    case ToUnblock(pid, bg) => jobs[i].pid == pid && !bg
    case ToUnblockFg(pid) => jobs[i].pid == pid
    case Looking(pid, k) => jobs[i].pid == pid && k <= i
    case Waiting(slot) => i == slot
    case _ => false
  }

  ghost predicate FgOk(jobs: seq<Job>, pc: Pc) {
    forall i {:trigger jobs[i]} :: 0 <= i < |jobs| && jobs[i].state == FG ==> MayBeFg(jobs, pc, i)
  }

  /** Dropped are the unreaped children that addjob had no room for. */
  ghost predicate Inv(s: State, dropped: set<int>) {
    && TableOk(s.t)
    && dropped <= s.kids.Keys - Unlisted(s.pc)
    && Pids(s.t.jobs) == s.kids.Keys - Unlisted(s.pc) - dropped
    && (forall pid {:trigger pid in s.kids} :: pid in s.kids ==> pid >= 1)
    && (s.pc.ToAdd? && s.pc.pid >= 1 ==> s.pc.pid in s.kids)
    && (s.inHandler ==> !Blocked(s.pc))
    && (s.pc.ToFind? ==> s.pc.arg > 0)
    && (s.pc.Waiting? ==> s.pc.slot < MAXJOBS)
    && FgOk(s.t.jobs, s.pc)
  }

  // ---- what the table operations do to the set of pids ----

  lemma PidSlot(jobs: seq<Job>, pid: int)
    requires pid != 0
    ensures pid in Pids(jobs) <==> FindPid(jobs, 0, pid) < |jobs|
  {
  }

  predicate HasRoom(t: Table) {
    FindPid(t.jobs, 0, 0) < |t.jobs|
  }

  /** The table has room exactly when fewer than sixteen jobs are listed. */
  lemma RoomIff(t: Table)
    requires TableOk(t)
    ensures HasRoom(t) <==> |Pids(t.jobs)| < MAXJOBS
  {
    if HasRoom(t) {
      OneFreeSlot(t.jobs, FindPid(t.jobs, 0, 0));
    } else {
      AllUsed(t.jobs);
    }
  }

  lemma PidsAppend(jobs: seq<Job>, j: Job)
    ensures Pids(jobs + [j]) == Pids(jobs) + if j.pid != 0 then {j.pid} else {}
  {
    var u := jobs + [j];
    forall p | p in Pids(jobs)
      ensures p in Pids(u)
    {
      var k :| 0 <= k < |jobs| && jobs[k].pid == p;
      assert u[k].pid == p;
    }
    assert u[|jobs|] == j;
  }

  /** Distinct pids in all slots. */
  ghost predicate AllTaken(jobs: seq<Job>) {
    && (forall i {:trigger jobs[i]} :: 0 <= i < |jobs| ==> jobs[i].pid != 0)
    && (forall i, j {:trigger jobs[i], jobs[j]} :: 0 <= i < j < |jobs| ==> jobs[i].pid != jobs[j].pid)
  }

  lemma {:induction false} AllUsed(jobs: seq<Job>)
    requires AllTaken(jobs)
    ensures |Pids(jobs)| == |jobs|
  {
    if jobs == [] {
      assert Pids(jobs) == {};
    } else {
      var rest, j := jobs[..|jobs| - 1], jobs[|jobs| - 1];
      AllUsed(rest);
      assert jobs == rest + [j];
      PidsAppend(rest, j);
      assert j.pid !in Pids(rest);
    }
  }

  lemma AddedOk(t: Table, pid: int, state: JobState, cmdline: string)
    requires TableOk(t) && pid >= 1 && pid !in Pids(t.jobs) && HasRoom(t) && state != UNDEF
    ensures var i, u := FindPid(t.jobs, 0, 0), Added(t, pid, state, cmdline);
            && TableOk(u) && i < MAXJOBS && u.jobs == t.jobs[i := Job(pid, t.nextJid, state, cmdline)]
            && Pids(u.jobs) == Pids(t.jobs) + {pid}
  {
    var i, u := FindPid(t.jobs, 0, 0), Added(t, pid, state, cmdline);
    PidSlot(t.jobs, pid);
    SetPids(t.jobs, i, Job(pid, t.nextJid, state, cmdline));
  }

  lemma DeletedOk(t: Table, pid: int)
    requires TableOk(t) && pid in Pids(t.jobs)
    ensures var i, u := FindPid(t.jobs, 0, pid), Deleted(t, pid);
            && i < MAXJOBS && TableOk(u) && u.jobs == t.jobs[i := NO_JOB] && Pids(u.jobs) == Pids(t.jobs) - {pid}
  {
    var i := FindPid(t.jobs, 0, pid);
    PidSlot(t.jobs, pid);
    SetPids(t.jobs, i, NO_JOB);
  }

  /** Replacing the one slot that holds a pid, or a free one. */
  lemma SetPids(jobs: seq<Job>, i: nat, j: Job)
    requires i < |jobs|
    requires forall k :: 0 <= k < |jobs| && k != i && jobs[i].pid != 0 ==> jobs[k].pid != jobs[i].pid
    requires j.pid != 0 ==> forall k :: 0 <= k < |jobs| && k != i ==> jobs[k].pid != j.pid
    ensures Pids(jobs[i := j]) == Pids(jobs) - {jobs[i].pid} + if j.pid != 0 then {j.pid} else {}
  {
    var u := jobs[i := j];
    forall p | p in Pids(jobs) - {jobs[i].pid}
      ensures p in Pids(u)
    {
      var k :| 0 <= k < |jobs| && jobs[k].pid == p;
      assert u[k].pid == p;
    }
    if j.pid != 0 {
      assert u[i].pid == j.pid;
    }
  }

  /** Changing only the state of a job, in a slot that has one. */
  lemma StateSet(t: Table, i: nat, state: JobState)
    requires TableOk(t) && i < MAXJOBS && t.jobs[i].pid != 0 && state != UNDEF
    ensures var u := t.(jobs := t.jobs[i := t.jobs[i].(state := state)]);
            TableOk(u) && Pids(u.jobs) == Pids(t.jobs)
  {
    SetPids(t.jobs, i, t.jobs[i].(state := state));
    assert t.jobs[i].pid in Pids(t.jobs);
  }

  lemma OneFreeSlot(jobs: seq<Job>, i: nat)
    requires i < |jobs| && jobs[i].pid == 0
    ensures |Pids(jobs)| < |jobs|
  {
    var rest := jobs[..i] + jobs[i + 1..];
    forall p | p in Pids(jobs)
      ensures p in Pids(rest)
    {
      var k :| 0 <= k < |jobs| && jobs[k].pid == p && p != 0;
      assert rest[if k < i then k else k - 1].pid == p;
    }
    SubsetSize(Pids(jobs), Pids(rest));
    AtMostSlots(rest);
  }

  lemma {:induction false} AtMostSlots(jobs: seq<Job>)
    ensures |Pids(jobs)| <= |jobs|
  {
    if jobs == [] {
      assert Pids(jobs) == {};
    } else {
      var rest, j := jobs[..|jobs| - 1], jobs[|jobs| - 1];
      AtMostSlots(rest);
      assert jobs == rest + [j];
      PidsAppend(rest, j);
      SubsetSize(Pids(jobs), Pids(rest) + {j.pid});
    }
  }

  // ---- the invariant is inductive ----

  /** addjob finds no free slot for the new child. */
  ghost predicate Drops(s: State, s': State) {
    AddJobStep(s, s') && s.pc.pid >= 1 && !HasRoom(s.t)
  }

  ghost function DroppedAfter(s: State, s': State, dropped: set<int>): set<int> {
    (if Drops(s, s') then dropped + {s.pc.pid} else dropped) * s'.kids.Keys
  }

  lemma InitOk(s: State)
    requires Init(s)
    ensures Inv(s, {})
  {
  }

  lemma ForkOk(s: State, s': State, D: set<int>)
    requires Inv(s, D) && !s.inHandler && Fork(s, s')
    ensures Inv(s', D) && D * s'.kids.Keys == D
  {
  }

  lemma AddJobOk(s: State, s': State, D: set<int>)
    requires Inv(s, D) && !s.inHandler && AddJobStep(s, s')
    ensures Inv(s', DroppedAfter(s, s', D))
  {
    var pid := s.pc.pid;
    if pid >= 1 && HasRoom(s.t) {
      AddedOk(s.t, pid, if s.pc.bg then BG else FG, s.pc.cmd);
      AddedFg(s, s', D);
      assert DroppedAfter(s, s', D) == D;
    } else {
      NotAddedFg(s, s', D);
    }
  }

  /** The new job is the only one that may be in the foreground. */
  lemma AddedFg(s: State, s': State, D: set<int>)
    requires Inv(s, D) && !s.inHandler && AddJobStep(s, s') && s.pc.pid >= 1 && HasRoom(s.t)
    ensures FgOk(s'.t.jobs, s'.pc)
  {
  }

  lemma NotAddedFg(s: State, s': State, D: set<int>)
    requires Inv(s, D) && !s.inHandler && AddJobStep(s, s') && (s.pc.pid < 1 || !HasRoom(s.t))
    ensures s'.t == s.t && FgOk(s'.t.jobs, s'.pc)
  {
  }

  lemma BgFgOk(s: State, s': State, D: set<int>)
    requires Inv(s, D) && !s.inHandler && BgFgSet(s, s')
    ensures Inv(s', D) && D * s'.kids.Keys == D
  {
    var i := Target(s.t.jobs, s.pc.byJid, s.pc.arg);
    if i < MAXJOBS {
      assert SlotOk(s.t.jobs[i]);
      StateSet(s.t, i, if s.pc.fg then FG else BG);
    }
  }

  /** The steps of the main loop that leave the table and the children alone. */
  lemma WalkOk(s: State, s': State, D: set<int>)
    requires Inv(s, D) && !s.inHandler
    requires EvalBlock(s, s') || EvalUnblock(s, s') || BgFgBlock(s, s') || BgFgUnblock(s, s')
             || Look(s, s') || Wait(s, s')
    ensures Inv(s', D) && s'.kids == s.kids && s'.t == s.t
  {
    WalkFg(s, s', D);
  }

  lemma WalkFg(s: State, s': State, D: set<int>)
    requires Inv(s, D)
    requires EvalBlock(s, s') || EvalUnblock(s, s') || BgFgBlock(s, s') || BgFgUnblock(s, s')
             || Look(s, s') || Wait(s, s')
    ensures FgOk(s.t.jobs, s'.pc)
  {
  }

  lemma MainOk(s: State, s': State, D: set<int>)
    requires Inv(s, D) && MainStep(s, s')
    ensures Inv(s', DroppedAfter(s, s', D))
  {
    if AddJobStep(s, s') {
      AddJobOk(s, s', D);
    } else {
      assert !Drops(s, s');
      if BgFgSet(s, s') {
        BgFgOk(s, s', D);
      } else if Fork(s, s') {
        ForkOk(s, s', D);
      } else {
        WalkOk(s, s', D);
        assert D * s'.kids.Keys == D;
      }
    }
  }

  lemma PidsPositive(t: Table)
    requires TableOk(t)
    ensures forall p :: p in Pids(t.jobs) ==> p >= 1
  {
  }

  lemma ReapEndedOk(s: State, s': State, pid: int, signaled: bool, D: set<int>)
    requires Inv(s, D) && ReapEnded(s, s', pid, signaled)
    ensures Inv(s', D * s'.kids.Keys)
    ensures s'.crashed <==> signaled && pid in D
  {
    PidsPositive(s.t);
    PidSlot(s.t.jobs, pid);
    if pid in Pids(s.t.jobs) {
      DeletedOk(s.t, pid);
    } else {
      assert Deleted(s.t, pid) == s.t;
    }
  }

  lemma ReapStoppedOk(s: State, s': State, pid: int, D: set<int>)
    requires Inv(s, D) && ReapStopped(s, s', pid)
    ensures Inv(s', D * s'.kids.Keys)
    ensures s'.crashed <==> pid in D
  {
    PidsPositive(s.t);
    PidSlot(s.t.jobs, pid);
    if pid in Pids(s.t.jobs) {
      StateSet(s.t, FindPid(s.t.jobs, 0, pid), ST);
    }
  }

  lemma ReapOk(s: State, s': State, D: set<int>)
    requires Inv(s, D) && Reap(s, s')
    ensures Inv(s', D * s'.kids.Keys)
  {
    if pid, signaled :| ReapEnded(s, s', pid, signaled) {
      ReapEndedOk(s, s', pid, signaled, D);
    } else {
      var pid :| ReapStopped(s, s', pid);
      ReapStoppedOk(s, s', pid, D);
    }
  }

  lemma ChildOk(s: State, s': State, D: set<int>)
    requires Inv(s, D) && ChildStep(s, s')
    ensures Inv(s', D) && s'.kids.Keys == s.kids.Keys
  {
  }

  lemma NextOk(s: State, s': State, D: set<int>)
    requires Inv(s, D) && Next(s, s')
    ensures Inv(s', DroppedAfter(s, s', D))
  {
    if MainStep(s, s') {
      MainOk(s, s', D);
    } else {
      NoAddJob(s, s');
      if Reap(s, s') {
        ReapOk(s, s', D);
      } else if ChildStep(s, s') {
        ChildOk(s, s', D);
        assert D * s'.kids.Keys == D;
      } else {
        assert D * s'.kids.Keys == D;
      }
    }
  }

  /** Only the main loop moves, so no other step is one of addjob's. */
  lemma NoAddJob(s: State, s': State)
    requires Next(s, s') && !MainStep(s, s')
    ensures s'.pc == s.pc && !Drops(s, s')
  {
  }

  // ---- all runs ----

  ghost predicate Run(r: seq<State>) {
    && |r| > 0 && Init(r[0])
    && forall n: nat {:trigger StepAt(r, n)} :: n + 1 < |r| ==> StepAt(r, n)
  }

  ghost predicate StepAt(r: seq<State>, n: nat)
    requires n + 1 < |r|
  {
    Next(r[n], r[n + 1])
  }

  lemma StepOf(r: seq<State>, n: nat, m: nat)
    requires Run(r) && m == n + 1 < |r|
    ensures Next(r[n], r[m])
  {
    assert StepAt(r, n);
  }

  /** Never more than MAXJOBS unreaped children. */
  ghost predicate Bounded(r: seq<State>) {
    forall n: nat {:trigger FewKids(r, n)} :: n < |r| ==> FewKids(r, n)
  }

  ghost predicate FewKids(r: seq<State>, n: nat)
    requires n < |r|
  {
    |r[n].kids| <= MAXJOBS
  }

  /** The children not yet reaped that addjob has dropped. */
  ghost function Dropped(r: seq<State>, n: nat): set<int>
    requires n < |r|
  {
    if n == 0 then {} else DroppedAfter(r[n - 1], r[n], Dropped(r, n - 1))
  }

  lemma {:induction false} RunOk(r: seq<State>, n: nat)
    requires Run(r) && n < |r|
    ensures Inv(r[n], Dropped(r, n))
    decreases n
  {
    if n == 0 {
      InitOk(r[0]);
    } else {
      RunOk(r, n - 1);
      StepOf(r, n - 1, n);
      NextOk(r[n - 1], r[n], Dropped(r, n - 1));
    }
  }

  /** With the bound, addjob never drops a child. */
  lemma {:induction false} NothingDropped(r: seq<State>, n: nat)
    requires Run(r) && Bounded(r) && n < |r|
    ensures Dropped(r, n) == {}
    decreases n
  {
    if n > 0 {
      NothingDropped(r, n - 1);
      NoneDroppedNext(r, n - 1, n);
    }
  }

  lemma NoneDroppedNext(r: seq<State>, n: nat, m: nat)
    requires Run(r) && Bounded(r) && m == n + 1 < |r| && Dropped(r, n) == {}
    ensures Dropped(r, m) == {}
  {
    RunOk(r, n);
    assert FewKids(r, n);
    RoomForOne(r[n], r[m]);
  }

  lemma RoomForOne(s: State, s': State)
    requires Inv(s, {}) && |s.kids| <= MAXJOBS
    ensures DroppedAfter(s, s', {}) == {}
  {
    if s.pc.ToAdd? && s.pc.pid >= 1 {
      assert |s.kids.Keys - {s.pc.pid}| == |s.kids.Keys| - 1;
      RoomIff(s.t);
    }
  }

  /**
   Whenever SIGCHLD is not blocked, the table lists each once exactly the unreaped children that
   addjob had room for; with at most MAXJOBS children at a time, exactly the unreaped children.
   */
  lemma TableTracksChildren(r: seq<State>, n: nat)
    requires Run(r) && n < |r| && !Blocked(r[n].pc)
    ensures |r[n].t.jobs| == MAXJOBS && Pids(r[n].t.jobs) == r[n].kids.Keys - Dropped(r, n)
    ensures Bounded(r) ==> Pids(r[n].t.jobs) == r[n].kids.Keys
    ensures forall i, j :: 0 <= i < j < MAXJOBS && r[n].t.jobs[i].pid != 0 ==> r[n].t.jobs[i].pid != r[n].t.jobs[j].pid
  {
    RunOk(r, n);
    if Bounded(r) {
      NothingDropped(r, n);
    }
  }

  /**
   The handler finds the job of a child exactly if addjob did not drop it, and it does not run between
   fork and addjob.
   */
  lemma HandlerFindsJob(r: seq<State>, n: nat, pid: int)
    requires Run(r) && n < |r| && r[n].inHandler && pid in r[n].kids
    ensures FindPid(r[n].t.jobs, 0, pid) < |r[n].t.jobs| <==> pid !in Dropped(r, n)
    ensures Bounded(r) ==> FindPid(r[n].t.jobs, 0, pid) < |r[n].t.jobs|
    ensures !r[n].pc.ToAdd?
  {
    RunOk(r, n);
    PidsPositive(r[n].t);
    PidSlot(r[n].t.jobs, pid);
    if Bounded(r) {
      NothingDropped(r, n);
    }
  }

  /** The step reaps one of these children, stopped or ended by a signal. */
  ghost predicate ReapsOneOf(s: State, s': State, pids: set<int>) {
    exists pid :: pid in pids && (ReapEnded(s, s', pid, true) || ReapStopped(s, s', pid))
  }

  /** The handler reads through NULL exactly when it reaps a dropped child that was stopped or signalled. */
  lemma CrashesExactly(r: seq<State>, n: nat)
    requires Run(r) && n + 1 < |r| && !r[n].crashed
    ensures r[n + 1].crashed <==> ReapsOneOf(r[n], r[n + 1], Dropped(r, n))
  {
    RunOk(r, n);
    StepOf(r, n, n + 1);
    CrashIff(r[n], r[n + 1], Dropped(r, n));
  }

  lemma CrashIff(s: State, s': State, D: set<int>)
    requires Inv(s, D) && Next(s, s') && !s.crashed
    ensures s'.crashed <==> ReapsOneOf(s, s', D)
  {
    if pid :| pid in D && (ReapEnded(s, s', pid, true) || ReapStopped(s, s', pid)) {
      CrashIfDropped(s, s', pid, D);
    }
    if s'.crashed {
      var pid := DroppedIfCrash(s, s', D);
    }
  }

  lemma CrashIfDropped(s: State, s': State, pid: int, D: set<int>)
    requires Inv(s, D) && pid in D && (ReapEnded(s, s', pid, true) || ReapStopped(s, s', pid))
    ensures s'.crashed
  {
    if ReapEnded(s, s', pid, true) {
      ReapEndedOk(s, s', pid, true, D);
    } else {
      ReapStoppedOk(s, s', pid, D);
    }
  }

  lemma DroppedIfCrash(s: State, s': State, D: set<int>) returns (pid: int)
    requires Inv(s, D) && Next(s, s') && !s.crashed && s'.crashed
    ensures pid in D && (ReapEnded(s, s', pid, true) || ReapStopped(s, s', pid))
  {
    if !Reap(s, s') {
      OnlyReapingCrashes(s, s');
    }
    if p, signaled :| ReapEnded(s, s', p, signaled) {
      ReapEndedOk(s, s', p, signaled, D);
      pid := p;
    } else {
      pid :| ReapStopped(s, s', pid);
      ReapStoppedOk(s, s', pid, D);
    }
  }

  lemma OnlyReapingCrashes(s: State, s': State)
    requires Next(s, s') && !Reap(s, s')
    ensures s'.crashed == s.crashed
  {
  }

  lemma NoCrashNext(r: seq<State>, n: nat, m: nat)
    requires Run(r) && m == n + 1 < |r| && Dropped(r, n) == {} && !r[n].crashed
    ensures !r[m].crashed
  {
    RunOk(r, n);
    StepOf(r, n, m);
    CrashIff(r[n], r[m], {});
  }

  /** With the bound it never does. */
  lemma {:induction false} NeverCrashes(r: seq<State>, n: nat)
    requires Run(r) && Bounded(r) && n < |r|
    ensures !r[n].crashed
    decreases n
  {
    if n > 0 {
      NeverCrashes(r, n - 1);
      NothingDropped(r, n - 1);
      NoCrashNext(r, n - 1, n);
    }
  }

  /** At most one job is in the foreground, none at the prompt, and fgpid tells which. */
  lemma OneForegroundJob(r: seq<State>, n: nat)
    requires Run(r) && n < |r|
    ensures |r[n].t.jobs| == MAXJOBS
    ensures forall i, j :: 0 <= i < j < MAXJOBS ==> !(r[n].t.jobs[i].state == FG && r[n].t.jobs[j].state == FG)
    ensures r[n].pc.Prompt? ==> forall i :: 0 <= i < MAXJOBS ==> r[n].t.jobs[i].state != FG
    ensures forall i :: 0 <= i < MAXJOBS && r[n].t.jobs[i].state == FG ==>
              FgPidOf(r[n].t.jobs) == r[n].t.jobs[i].pid >= 1
    ensures (forall i :: 0 <= i < MAXJOBS ==> r[n].t.jobs[i].state != FG) ==> FgPidOf(r[n].t.jobs) == 0
  {
    RunOk(r, n);
    OneFg(r[n], Dropped(r, n));
  }

  lemma OneFg(s: State, D: set<int>)
    requires Inv(s, D)
    ensures |s.t.jobs| == MAXJOBS
    ensures forall i, j :: 0 <= i < j < MAXJOBS ==> !(s.t.jobs[i].state == FG && s.t.jobs[j].state == FG)
    ensures forall i :: 0 <= i < MAXJOBS && s.t.jobs[i].state == FG ==> s.t.jobs[i].pid >= 1
  {
  }

  // ---- the foreground ----

  /** The step reports that child pid has ended or stopped. */
  ghost predicate Reports(s: State, s': State, pid: int) {
    && s.inHandler && pid in s.kids
    && (pid !in s'.kids || (s.kids[pid] == Stopped(false) && s'.kids[pid] == Stopped(true)))
  }

  /** The job in slot i is in the foreground and the main loop waits for it, or is on its way to. */
  ghost predicate InFront(s: State, pid: int, i: nat) {
    && i < |s.t.jobs| && pid >= 1 && s.t.jobs[i].pid == pid && s.t.jobs[i].state == FG
    && match s.pc
       case ToUnblock(p, bg) => p == pid && !bg
       case ToUnblockFg(p) => p == pid
       case Looking(p, k) => p == pid && k <= i
       case Waiting(slot) => slot == i
       case _ => false
  }

  lemma InFrontMain(s: State, s': State, D: set<int>, pid: int, i: nat)
    requires Inv(s, D) && InFront(s, pid, i) && MainStep(s, s')
    ensures InFront(s', pid, i)
  {
  }

  lemma InFrontReap(s: State, s': State, D: set<int>, pid: int, i: nat)
    requires Inv(s, D) && InFront(s, pid, i) && Reap(s, s') && !Reports(s, s', pid)
    ensures InFront(s', pid, i)
  {
    assert pid in Pids(s.t.jobs);
    PidSlot(s.t.jobs, pid);
    if p, signaled :| ReapEnded(s, s', p, signaled) {
      EndedOther(s, s', p, signaled, pid, i);
    } else {
      var p :| ReapStopped(s, s', p);
      assert p != pid;
      var k := FindPid(s.t.jobs, 0, p);
      assert k < |s.t.jobs| ==> k != i;
    }
  }

  lemma EndedOther(s: State, s': State, p: int, signaled: bool, pid: int, i: nat)
    requires ReapEnded(s, s', p, signaled) && InFront(s, pid, i) && FindPid(s.t.jobs, 0, pid) < |s.t.jobs|
    requires pid in s.kids && !Reports(s, s', pid)
    ensures InFront(s', pid, i)
  {
    assert p != pid;
    var k := FindPid(s.t.jobs, 0, p);
    assert k < |s.t.jobs| ==> k != i;
  }

  lemma InFrontStep(s: State, s': State, D: set<int>, pid: int, i: nat)
    requires Inv(s, D) && InFront(s, pid, i) && Next(s, s') && !Reports(s, s', pid)
    ensures InFront(s', pid, i)
  {
    if MainStep(s, s') {
      InFrontMain(s, s', D, pid, i);
    } else if Reap(s, s') {
      InFrontReap(s, s', D, pid, i);
    } else {
      assert s'.t == s.t && s'.pc == s.pc;
    }
  }

  /** No step from n up to m reports pid. */
  ghost predicate Unreported(r: seq<State>, n: nat, m: nat, pid: int)
    requires n <= m < |r|
  {
    forall k: nat {:trigger ReportsAt(r, k, pid)} :: n <= k < m ==> !ReportsAt(r, k, pid)
  }

  ghost predicate ReportsAt(r: seq<State>, k: nat, pid: int)
    requires k + 1 < |r|
  {
    Reports(r[k], r[k + 1], pid)
  }

  /** A foreground job stays the foreground job, and the shell away from its prompt, until it is reported. */
  lemma {:induction false} StaysInFront(r: seq<State>, n: nat, m: nat, pid: int, i: nat)
    requires Run(r) && n <= m < |r| && InFront(r[n], pid, i) && Unreported(r, n, m, pid)
    ensures InFront(r[m], pid, i) && FgPidOf(r[m].t.jobs) == pid && !r[m].pc.Prompt?
    decreases m
  {
    if n < m {
      UnreportedLast(r, n, m, pid);
      StaysInFront(r, n, m - 1, pid, i);
      StepOf(r, m - 1, m);
      RunOk(r, m - 1);
      InFrontStep(r[m - 1], r[m], Dropped(r, m - 1), pid, i);
    }
    RunOk(r, m);
    IsFgPid(r[m], Dropped(r, m), pid, i);
  }

  lemma UnreportedLast(r: seq<State>, n: nat, m: nat, pid: int)
    requires n < m < |r| && Unreported(r, n, m, pid)
    ensures Unreported(r, n, m - 1, pid) && !Reports(r[m - 1], r[m], pid)
  {
    assert !ReportsAt(r, m - 1, pid);
  }

  lemma IsFgPid(s: State, D: set<int>, pid: int, i: nat)
    requires Inv(s, D) && InFront(s, pid, i)
    ensures FgPidOf(s.t.jobs) == pid
  {
    OneFg(s, D);
    assert FindFg(s.t.jobs, 0) == i;
  }

  /** Step n is the one that eval makes with addjob. */
  ghost predicate AddsJob(r: seq<State>, n: nat)
    requires n + 1 < |r|
  {
    r[n].pc.ToAdd? && r[n + 1].pc.ToUnblock?
  }

  lemma MovesByMain(s: State, s': State)
    requires Next(s, s') && s'.pc != s.pc
    ensures MainStep(s, s')
  {
  }

  /** addjob lists the child in the first free slot if there is one: FG for a foreground command, BG for '&'. */
  lemma ListedAs(r: seq<State>, n: nat) returns (i: nat)
    requires Run(r) && n + 1 < |r| && AddsJob(r, n) && r[n].pc.pid >= 1 && |Pids(r[n].t.jobs)| < MAXJOBS
    ensures i < |r[n].t.jobs| == |r[n + 1].t.jobs| && r[n].t.jobs[i].pid == 0
    ensures var now := r[n + 1].t.jobs[i];
            && now.pid == r[n].pc.pid && now.cmdline == r[n].pc.cmd && now.jid == r[n].t.nextJid
            && now.state == if r[n].pc.bg then BG else FG
    ensures forall j :: 0 <= j < |r[n].t.jobs| && j != i ==> r[n + 1].t.jobs[j] == r[n].t.jobs[j]
    ensures !r[n].pc.bg ==> InFront(r[n + 1], r[n].pc.pid, i)
  {
    RunOk(r, n);
    RoomIff(r[n].t);
    StepOf(r, n, n + 1);
    MovesByMain(r[n], r[n + 1]);
    i := FindPid(r[n].t.jobs, 0, 0);
  }

  /**
   A foreground command becomes the foreground job, and from then on fgpid is its pid and the shell does
   not return to its prompt, until the handler has reported that it ended or stopped.
   */
  lemma ForegroundCommand(r: seq<State>, n: nat, m: nat)
    requires Run(r) && n < m < |r| && AddsJob(r, n) && !r[n].pc.bg
    requires r[n].pc.pid >= 1 && |Pids(r[n].t.jobs)| < MAXJOBS && Unreported(r, n + 1, m, r[n].pc.pid)
    ensures FgPidOf(r[m].t.jobs) == r[n].pc.pid && !r[m].pc.Prompt?
  {
    var i := ListedAs(r, n);
    StaysInFront(r, n + 1, m, r[n].pc.pid, i);
  }

  /** The last state of the stretch from n in which the main loop is where it was at n. */
  lemma {:induction false} Leaves(r: seq<State>, n: nat, m: nat) returns (k: nat)
    requires Run(r) && n <= m < |r| && r[m].pc != r[n].pc
    ensures n <= k < m && r[k].pc == r[n].pc && r[k + 1].pc != r[n].pc && MainStep(r[k], r[k + 1])
    decreases m
  {
    if r[m - 1].pc == r[n].pc {
      k := m - 1;
      StepOf(r, k, m);
      MovesByMain(r[k], r[m]);
    } else {
      k := Leaves(r, n, m - 1);
    }
  }

  lemma ForkMoves(s: State, s': State)
    requires MainStep(s, s') && s.pc.ToFork? && s'.pc != s.pc
    ensures s'.pc.ToAdd? && s'.pc.bg == s.pc.bg && s'.pc.cmd == s.pc.cmd && (s'.pc.pid == -1 || s'.pc.pid >= 1)
  {
  }

  lemma AddMoves(s: State, s': State)
    requires MainStep(s, s') && s.pc.ToAdd? && s'.pc != s.pc
    ensures s'.pc.ToUnblock?
  {
  }

  /** The state before addjob for a command that was about to fork, once the shell is at its prompt again. */
  lemma AddOf(r: seq<State>, n: nat, m: nat) returns (k: nat)
    requires Run(r) && n <= m < |r| && r[n].pc.ToFork? && r[m].pc.Prompt?
    ensures n < k < m && AddsJob(r, k) && r[k].pc.cmd == r[n].pc.cmd && r[k].pc.bg == r[n].pc.bg
    ensures r[k].pc.pid == -1 || r[k].pc.pid >= 1
  {
    var f := Leaves(r, n, m);
    ForkMoves(r[f], r[f + 1]);
    k := Leaves(r, f + 1, m);
    AddMoves(r[k], r[k + 1]);
  }

  /**
   When the shell is back at its prompt after a foreground command, then fork failed, or addjob found
   sixteen jobs listed, or the handler has reported that the command ended or stopped.
   */
  lemma BackAtPrompt(r: seq<State>, n: nat, m: nat) returns (k: nat, j: nat)
    requires Run(r) && n <= m < |r| && r[n].pc.ToFork? && !r[n].pc.bg && r[m].pc.Prompt?
    ensures n < k < m && AddsJob(r, k) && r[k].pc.cmd == r[n].pc.cmd && !r[k].pc.bg
    ensures r[k].pc.pid == -1 || |Pids(r[k].t.jobs)| == MAXJOBS
            || (k < j < m && ReportsAt(r, j, r[k].pc.pid))
  {
    k := AddOf(r, n, m);
    RunOk(r, k);
    AtMostSlots(r[k].t.jobs);
    j := 0;
    if r[k].pc.pid != -1 && |Pids(r[k].t.jobs)| < MAXJOBS {
      j := ReportOf(r, k, m);
    }
  }

  lemma ReportOf(r: seq<State>, k: nat, m: nat) returns (j: nat)
    requires Run(r) && k < m < |r| && AddsJob(r, k) && !r[k].pc.bg && r[m].pc.Prompt?
    requires r[k].pc.pid >= 1 && |Pids(r[k].t.jobs)| < MAXJOBS
    ensures k < j < m && ReportsAt(r, j, r[k].pc.pid)
  {
    if Unreported(r, k + 1, m, r[k].pc.pid) {
      ForegroundCommand(r, k, m);
      assert false;
    }
    j :| k + 1 <= j < m && ReportsAt(r, j, r[k].pc.pid);
  }

  // ---- the builtins fg and bg ----

  /** Whether fg or bg with this argument means the job. */
  predicate Means(j: Job, byJid: bool, arg: int) {
    if byJid then j.jid == arg else j.pid == arg
  }

  /**
   fg and bg put the first job with that id, or with that pid, into the foreground or the background and
   leave all others alone; after fg the shell waits for the job. Without such a job nothing changes.
   */
  lemma FgBgSets(r: seq<State>, n: nat) returns (i: nat)
    requires Run(r) && n + 1 < |r| && r[n].pc.ToFind? && !r[n + 1].pc.ToFind?
    ensures i <= |r[n].t.jobs| && forall j :: 0 <= j < i ==> !Means(r[n].t.jobs[j], r[n].pc.byJid, r[n].pc.arg)
    ensures i == |r[n].t.jobs| ==> r[n + 1].t == r[n].t && r[n + 1].pc == ToEnd
    ensures i < |r[n].t.jobs| ==>
              var job, state := r[n].t.jobs[i], if r[n].pc.fg then FG else BG;
              && Means(job, r[n].pc.byJid, r[n].pc.arg) && job.pid >= 1
              && r[n + 1].t.jobs == r[n].t.jobs[i := Job(job.pid, job.jid, state, job.cmdline)]
              && r[n + 1].t.nextJid == r[n].t.nextJid
              && (if r[n].pc.fg then InFront(r[n + 1], job.pid, i) else r[n + 1].pc == ToEnd)
  {
    RunOk(r, n);
    StepOf(r, n, n + 1);
    MovesByMain(r[n], r[n + 1]);
    i := Target(r[n].t.jobs, r[n].pc.byJid, r[n].pc.arg);
    assert i < |r[n].t.jobs| ==> SlotOk(r[n].t.jobs[i]);
  }

  /** A job that fg has put into the foreground stays there until it is reported. */
  lemma FgWaits(r: seq<State>, n: nat, m: nat, i: nat)
    requires Run(r) && n < m < |r| && r[n].pc.ToFind? && !r[n + 1].pc.ToFind? && r[n].pc.fg
    requires i < |r[n].t.jobs| && Means(r[n].t.jobs[i], r[n].pc.byJid, r[n].pc.arg)
    requires forall j :: 0 <= j < i ==> !Means(r[n].t.jobs[j], r[n].pc.byJid, r[n].pc.arg)
    requires Unreported(r, n + 1, m, r[n].t.jobs[i].pid)
    ensures FgPidOf(r[m].t.jobs) == r[n].t.jobs[i].pid && !r[m].pc.Prompt?
  {
    var k := FgBgSets(r, n);
    assert k == i;
    StaysInFront(r, n + 1, m, r[n].t.jobs[i].pid, i);
  }

  /**
   The handler clears the slot of a child that ended, and the next job id follows the largest left; it marks
   the job of one that stopped. All other slots stay.
   */
  lemma HandlerMarks(r: seq<State>, n: nat, pid: int, i: nat)
    requires Run(r) && n + 1 < |r| && ReportsAt(r, n, pid) && i < |r[n].t.jobs| && r[n].t.jobs[i].pid == pid
    ensures pid !in r[n + 1].kids ==>
              && r[n].kids[pid] == Zombie
              && r[n + 1].t.jobs == r[n].t.jobs[i := Job(0, 0, UNDEF, "")]
              && IsNextJid(r[n + 1].t.jobs, r[n + 1].t.nextJid)
    ensures pid in r[n + 1].kids ==>
              var job := r[n].t.jobs[i];
              r[n + 1].t == Table(r[n].t.jobs[i := Job(pid, job.jid, ST, job.cmdline)], r[n].t.nextJid)
  {
    RunOk(r, n);
    StepOf(r, n, n + 1);
    ReportsByReap(r[n], r[n + 1], pid, Dropped(r, n), i);
  }

  lemma ReportsByReap(s: State, s': State, pid: int, D: set<int>, i: nat)
    requires Inv(s, D) && Next(s, s') && Reports(s, s', pid) && i < |s.t.jobs| && s.t.jobs[i].pid == pid
    ensures FindPid(s.t.jobs, 0, pid) == i && pid >= 1
    ensures pid !in s'.kids ==>
              s.kids[pid] == Zombie && s'.t.jobs == s.t.jobs[i := NO_JOB] && IsNextJid(s'.t.jobs, s'.t.nextJid)
    ensures pid in s'.kids ==> s'.t == s.t.(jobs := s.t.jobs[i := s.t.jobs[i].(state := ST)])
  {
    assert FindPid(s.t.jobs, 0, pid) == i && pid >= 1 by {
      SlotOfPid(s, D, pid, i);
    }
    ReapOfReport(s, s', pid);
    DeletedJid(s.t, pid);
  }

  lemma SlotOfPid(s: State, D: set<int>, pid: int, i: nat)
    requires Inv(s, D) && i < |s.t.jobs| && s.t.jobs[i].pid == pid && pid in s.kids
    ensures FindPid(s.t.jobs, 0, pid) == i && pid >= 1
  {
  }

  lemma ReapOfReport(s: State, s': State, pid: int)
    requires Next(s, s') && Reports(s, s', pid)
    ensures if pid in s'.kids then ReapStopped(s, s', pid)
            else ReapEnded(s, s', pid, true) || ReapEnded(s, s', pid, false)
  {
    if p, signaled :| ReapEnded(s, s', p, signaled) {
      assert p == pid;
    } else if p :| ReapStopped(s, s', p) {
      assert p == pid;
    }
  }

  // ---- nobody gets stuck ----

  /** The main loop can always take a step when the handler is not running; waitfg returns once the job is not FG. */
  lemma MainCanStep(s: State, D: set<int>) returns (s': State)
    requires Inv(s, D) && !s.inHandler && !s.crashed
    ensures MainStep(s, s')
    ensures s.pc.Waiting? ==> s' == if s.t.jobs[s.pc.slot].state == FG then s else s.(pc := Prompt)
  {
    match s.pc {
      case Prompt => s' := s.(pc := ToFork(true, "")); assert EvalBlock(s, s');
      case ToFork(bg, cmd) => s' := s.(pc := ToAdd(-1, bg, cmd)); assert Fork(s, s');
      case ToAdd(pid, bg, cmd) =>
        s' := s.(t := Added(s.t, pid, if bg then BG else FG, cmd), pc := ToUnblock(pid, bg));
      case ToUnblock(pid, bg) => s' := s.(pc := if bg then Prompt else Looking(pid, 0));
      case ToFind(byJid, arg, fg) =>
        var jobs, i := s.t.jobs, Target(s.t.jobs, byJid, arg);
        s' := if i == |jobs| then s.(pc := ToEnd)
              else if fg then s.(t := s.t.(jobs := jobs[i := jobs[i].(state := FG)]), pc := ToUnblockFg(jobs[i].pid))
              else s.(t := s.t.(jobs := jobs[i := jobs[i].(state := BG)]), pc := ToEnd);
      case ToUnblockFg(pid) => s' := s.(pc := Looking(pid, 0));
      case ToEnd => s' := s.(pc := Prompt);
      case Looking(pid, i) =>
        s' := s.(pc := if pid < 1 || i >= |s.t.jobs| then Prompt
                       else if s.t.jobs[i].pid == pid then Waiting(i) else Looking(pid, i + 1));
      case Waiting(slot) => s' := if s.t.jobs[slot].state == FG then s else s.(pc := Prompt);
    }
  }

  /** The handler goes on until every ended child is reaped and every stopped one reported. */
  lemma HandlerReapsAll(r: seq<State>, n: nat)
    requires Run(r) && n + 1 < |r| && r[n].inHandler && !r[n + 1].inHandler
    ensures r[n + 1].t == r[n].t && r[n + 1].kids == r[n].kids
    ensures forall pid :: pid in r[n].kids ==> r[n].kids[pid] == Running || r[n].kids[pid] == Stopped(true)
  {
    StepOf(r, n, n + 1);
  }

  // ---- how the state of a job may change ----

  /** The changes that tsh.c documents. */
  predicate Documented(was: JobState, now: JobState) {
    (was == FG && now == ST) || (was == ST && now == FG) || (was == ST && now == BG) || (was == BG && now == FG)
  }

  /**
   In one step a listed job keeps its state, is removed, or changes as documented, unless it is a
   background job whose child is reaped as stopped. A slot changes its pid only by being cleared.
   */
  lemma StateChanges(s: State, s': State, D: set<int>, i: nat)
    requires Inv(s, D) && Next(s, s') && i < MAXJOBS && s.t.jobs[i].pid != 0
    ensures i < |s'.t.jobs| && (s'.t.jobs[i].pid == s.t.jobs[i].pid || s'.t.jobs[i] == NO_JOB)
    ensures var was, now := s.t.jobs[i], s'.t.jobs[i];
            now == NO_JOB || now.state == was.state || Documented(was.state, now.state)
            <==> !(was.state == BG && ReapStopped(s, s', was.pid))
  {
    if MainStep(s, s') {
      MainChanges(s, s', D, i);
      NoReapInMain(s, s', s.t.jobs[i].pid);
    } else if Reap(s, s') {
      HandlerChanges(s, s', D, i);
    } else {
      assert s'.t == s.t;
    }
  }

  lemma NoReapInMain(s: State, s': State, pid: int)
    requires MainStep(s, s')
    ensures !ReapStopped(s, s', pid)
  {
  }

  lemma HandlerChanges(s: State, s': State, D: set<int>, i: nat)
    requires Inv(s, D) && Reap(s, s') && i < MAXJOBS && s.t.jobs[i].pid != 0
    ensures i < |s'.t.jobs|
    ensures s'.t.jobs[i] == if ReapStopped(s, s', s.t.jobs[i].pid) then s.t.jobs[i].(state := ST)
                            else if s'.t.jobs[i] == NO_JOB then NO_JOB
                            else s.t.jobs[i]
  {
    if pid, signaled :| ReapEnded(s, s', pid, signaled) {
      assert !ReapStopped(s, s', s.t.jobs[i].pid);
    } else {
      var pid :| ReapStopped(s, s', pid);
      var k := FindPid(s.t.jobs, 0, pid);
      assert k < MAXJOBS && k != i ==> s.t.jobs[k].pid != s.t.jobs[i].pid;
    }
  }

  lemma MainChanges(s: State, s': State, D: set<int>, i: nat)
    requires Inv(s, D) && MainStep(s, s') && i < MAXJOBS && s.t.jobs[i].pid != 0
    ensures i < |s'.t.jobs| && s'.t.jobs[i].pid == s.t.jobs[i].pid
    ensures s'.t.jobs[i].state == s.t.jobs[i].state || Documented(s.t.jobs[i].state, s'.t.jobs[i].state)
  {
    if AddJobStep(s, s') {
      assert FindPid(s.t.jobs, 0, 0) != i;
    } else if BgFgSet(s, s') {
      assert SlotOk(s.t.jobs[i]) && s.t.jobs[i].state != FG;
    } else {
      assert s'.t == s.t;
    }
  }

  // ---- two runs ----

  /** Some run leads to s; if `bounded`, one with at most MAXJOBS children at a time. */
  ghost predicate Reached(s: State, bounded: bool) {
    exists r :: Run(r) && r[|r| - 1] == s && (bounded ==> Bounded(r))
  }

  lemma ReachedNext(s: State, s': State, bounded: bool)
    requires Reached(s, bounded) && Next(s, s') && (bounded ==> |s'.kids| <= MAXJOBS)
    ensures Reached(s', bounded)
  {
    var r :| Run(r) && r[|r| - 1] == s && (bounded ==> Bounded(r));
    var r' := r + [s'];
    forall n: nat | n + 1 < |r'|
      ensures StepAt(r', n)
    {
      if n + 1 < |r| {
        assert StepAt(r, n);
      }
    }
    forall n: nat | n < |r'| && bounded
      ensures FewKids(r', n)
    {
      if n < |r| {
        assert FewKids(r, n);
      }
    }
    assert Run(r') && r'[|r'| - 1] == s';
  }

  function Listed(n: nat): (jobs: seq<Job>)
    ensures |jobs| == MAXJOBS
  {
    seq(MAXJOBS, i requires 0 <= i => if i < n then Job(i + 1, i + 1, BG, "") else NO_JOB)
  }

  ghost function Kids(n: nat): map<int, Child> {
    if n == 0 then map[] else Kids(n - 1)[n := Running]
  }

  /** The shell at its prompt with n children running; the first sixteen are listed as background jobs. */
  ghost function Busy(n: nat): State {
    State(Table(Listed(n), if n + 1 > MAXJOBS then 1 else n + 1), Kids(n), Prompt, false, false, false)
  }

  lemma {:induction false} KidsSize(n: nat)
    ensures |Kids(n)| == n && forall p :: p in Kids(n) <==> 1 <= p <= n
    ensures forall p :: p in Kids(n) ==> Kids(n)[p] == Running
  {
    if n > 0 {
      KidsSize(n - 1);
    }
  }

  lemma ListedFind(n: nat, pid: int)
    requires n <= MAXJOBS && pid >= 0
    ensures FindPid(Listed(n), 0, pid) == if pid == 0 then n else if pid <= n then pid - 1 else MAXJOBS
  {
    var r := FindPid(Listed(n), 0, pid);
    if pid == 0 && n < MAXJOBS {
      assert Listed(n)[n].pid == 0;
    } else if 1 <= pid <= n {
      assert Listed(n)[pid - 1].pid == pid;
    }
    assert r < MAXJOBS ==> Listed(n)[r].pid == pid;
  }

  /** The table after one more background command. */
  ghost function TableNext(n: nat): Table {
    if n < MAXJOBS then Busy(n + 1).t else Busy(n).t
  }

  lemma AddedListed(n: nat)
    requires n <= MAXJOBS
    ensures Added(Busy(n).t, n + 1, BG, "") == TableNext(n)
  {
    ListedFind(n, 0);
    if n < MAXJOBS {
      assert Listed(n)[n := Job(n + 1, n + 1, BG, "")] == Listed(n + 1);
    }
  }

  /** One more background command. */
  lemma OneMore(n: nat, bounded: bool)
    requires n <= MAXJOBS && Reached(Busy(n), bounded) && (bounded ==> n < MAXJOBS)
    ensures Reached(Busy(n + 1).(t := TableNext(n)), bounded)
  {
    var s := Busy(n);
    KidsSize(n);
    KidsSize(n + 1);
    AddedListed(n);
    var s1 := s.(pc := ToFork(true, ""));
    var s2 := s1.(kids := Kids(n + 1), pc := ToAdd(n + 1, true, ""));
    assert EvalBlock(s, s1);
    ReachedNext(s, s1, bounded);
    assert Fork(s1, s2);
    ReachedNext(s1, s2, bounded);
    Listing(n, s2, bounded);
  }

  lemma Listing(n: nat, s: State, bounded: bool)
    requires n <= MAXJOBS && Reached(s, bounded) && (bounded ==> |s.kids| <= MAXJOBS)
    requires s == Busy(n).(kids := Kids(n + 1), pc := ToAdd(n + 1, true, ""))
    ensures Reached(Busy(n + 1).(t := TableNext(n)), bounded)
  {
    AddedListed(n);
    var s1 := s.(t := TableNext(n), pc := ToUnblock(n + 1, true));
    assert AddJobStep(s, s1);
    ReachedNext(s, s1, bounded);
    var s2 := s1.(pc := Prompt);
    assert EvalUnblock(s1, s2);
    ReachedNext(s1, s2, bounded);
  }

  lemma {:induction false} BusyReached(n: nat)
    requires n <= MAXJOBS
    ensures Reached(Busy(n), true)
  {
    if n == 0 {
      KidsSize(0);
      assert Busy(0).t.jobs == seq(MAXJOBS, _ => NO_JOB);
      var r := [Busy(0)];
      assert Run(r) && Bounded(r) && r[|r| - 1] == Busy(0);
    } else {
      BusyReached(n - 1);
      OneMore(n - 1, true);
    }
  }

  /** Child pid stops and the handler is about to reap it. */
  lemma StopAndHandle(s: State, pid: int, bounded: bool) returns (h: State)
    requires Reached(s, bounded) && s.pc == Prompt && !s.inHandler && !s.crashed
    requires pid in s.kids && s.kids[pid].Running? && (bounded ==> |s.kids| <= MAXJOBS)
    ensures h == s.(kids := s.kids[pid := Stopped(false)], inHandler := true, pending := false)
    ensures Reached(h, bounded)
  {
    var s1 := s.(kids := s.kids[pid := Stopped(false)], pending := true);
    assert s1.kids.Keys == s.kids.Keys;
    assert ChildStep(s, s1);
    ReachedNext(s, s1, bounded);
    h := s1.(inHandler := true, pending := false);
    assert HandlerStart(s1, h);
    ReachedNext(s1, h, bounded);
  }

  /** A background job can be stopped: the change that tsh.c does not document does happen. */
  lemma BackgroundJobStops() returns (s: State, s': State)
    ensures Reached(s, true) && Next(s, s') && Reached(s', true)
    ensures |s.t.jobs| == |s'.t.jobs| == MAXJOBS && s.t.jobs[0].pid == s'.t.jobs[0].pid != 0
    ensures s.t.jobs[0].state == BG && s'.t.jobs[0].state == ST
  {
    BusyReached(1);
    KidsSize(1);
    s := StopAndHandle(Busy(1), 1, true);
    ListedFind(1, 1);
    s' := s.(kids := s.kids[1 := Stopped(true)],
             t := s.t.(jobs := s.t.jobs[0 := s.t.jobs[0].(state := ST)]));
    assert ReapStopped(s, s', 1);
    assert s'.kids.Keys == s.kids.Keys;
    ReachedNext(s, s', true);
  }

  /** Seventeen background commands and a stop: without the bound on children the handler does crash. */
  lemma SeventeenChildrenCrash() returns (s: State)
    ensures Reached(s, false) && s.crashed && |s.kids| == MAXJOBS + 1
  {
    BusyReached(MAXJOBS);
    Unbound(Busy(MAXJOBS));
    OneMore(MAXJOBS, false);
    var b := Busy(MAXJOBS + 1).(t := TableNext(MAXJOBS));
    KidsSize(MAXJOBS + 1);
    var h := StopAndHandle(b, MAXJOBS + 1, false);
    ListedFind(MAXJOBS, MAXJOBS + 1);
    s := h.(crashed := true);
    assert ReapStopped(h, s, MAXJOBS + 1);
    ReachedNext(h, s, false);
    assert h.kids.Keys == b.kids.Keys;
  }

  lemma Unbound(s: State)
    requires Reached(s, true)
    ensures Reached(s, false)
  {
  }

  /** addjob lists a new child exactly when fewer than MAXJOBS are listed. */
  lemma ListedIffRoom(t: Table, pid: int, state: JobState, cmdline: string)
    requires TableOk(t) && pid >= 1 && pid !in Pids(t.jobs) && state != UNDEF
    ensures pid in Pids(Added(t, pid, state, cmdline).jobs) <==> |Pids(t.jobs)| < MAXJOBS
  {
    RoomIff(t);
    if HasRoom(t) {
      AddedOk(t, pid, state, cmdline);
    }
  }
}
