/** The job list of tsh.c and the helper routines that manipulate it. */
module JobTable {
  const MAXJOBS := 16

  datatype JobState = UNDEF | FG | BG | ST

  datatype Job = Job(pid: int, jid: int, state: JobState, cmdline: string)

  const NO_JOB := Job(0, 0, UNDEF, "")

  // ---- what the helpers compute, as functions of the list ----

  /** The first slot from i on whose pid is p; |jobs| when there is none. */
  function FindPid(jobs: seq<Job>, i: nat, p: int): (r: nat)
    requires i <= |jobs|
    ensures i <= r <= |jobs| && (r < |jobs| ==> jobs[r].pid == p) && forall j :: i <= j < r ==> jobs[j].pid != p
    decreases |jobs| - i
  {
    if i == |jobs| || jobs[i].pid == p then i else FindPid(jobs, i + 1, p)
  }

  function FindJid(jobs: seq<Job>, i: nat, jid: int): (r: nat)
    requires i <= |jobs|
    ensures i <= r <= |jobs| && (r < |jobs| ==> jobs[r].jid == jid) && forall j :: i <= j < r ==> jobs[j].jid != jid
    decreases |jobs| - i
  {
    if i == |jobs| || jobs[i].jid == jid then i else FindJid(jobs, i + 1, jid)
  }

  function FindFg(jobs: seq<Job>, i: nat): (r: nat)
    requires i <= |jobs|
    ensures i <= r <= |jobs| && (r < |jobs| ==> jobs[r].state == FG) && forall j :: i <= j < r ==> jobs[j].state != FG
    decreases |jobs| - i
  {
    if i == |jobs| || jobs[i].state == FG then i else FindFg(jobs, i + 1)
  }

  function MaxJidOf(jobs: seq<Job>): (max: int)
    ensures max >= 0 && forall i :: 0 <= i < |jobs| ==> jobs[i].jid <= max
    ensures max == 0 || exists i :: 0 <= i < |jobs| && jobs[i].jid == max
  {
    if jobs == [] then 0
    else
      var m, last := MaxJidOf(jobs[..|jobs| - 1]), jobs[|jobs| - 1].jid;
      if last > m then last else m
  }

  datatype Table = Table(jobs: seq<Job>, nextJid: int)

  function Added(t: Table, pid: int, state: JobState, cmdline: string): Table {
    var i := FindPid(t.jobs, 0, 0);
    if pid < 1 || i == |t.jobs| then t
    else Table(t.jobs[i := Job(pid, t.nextJid, state, cmdline)], if t.nextJid + 1 > MAXJOBS then 1 else t.nextJid + 1)
  }

  function Deleted(t: Table, pid: int): Table {
    var i := FindPid(t.jobs, 0, pid);
    if pid < 1 || i == |t.jobs| then t
    else var jobs := t.jobs[i := NO_JOB]; Table(jobs, MaxJidOf(jobs) + 1)
  }

  /** One more than the largest job id of the list, 1 if there is none. */
  ghost predicate IsNextJid(jobs: seq<Job>, jid: int) {
    && (forall i :: 0 <= i < |jobs| ==> jobs[i].jid < jid)
    && (jid == 1 || exists i :: 0 <= i < |jobs| && jobs[i].jid == jid - 1)
  }

  /** Deleting a job makes the next id follow the largest left. */
  lemma DeletedJid(t: Table, pid: int)
    requires pid >= 1 && FindPid(t.jobs, 0, pid) < |t.jobs|
    ensures IsNextJid(Deleted(t, pid).jobs, Deleted(t, pid).nextJid)
  {
  }

  function FgPidOf(jobs: seq<Job>): int {
    var i := FindFg(jobs, 0);
    if i == |jobs| then 0 else jobs[i].pid
  }

  // ---- the helpers ----

  class JobList {
    const jobs: array<Job>
    var nextJid: int

    ghost function T(): Table
      reads this, jobs
    {
      Table(jobs[..], nextJid)
    }

    /** initjobs on the zeroed global array */
    constructor ()
      ensures fresh(jobs) && T() == Table(seq(MAXJOBS, _ => NO_JOB), 1)
    {
      jobs := new Job[MAXJOBS](_ => NO_JOB);
      nextJid := 1;
      new;
      InitJobs();
    }

    method ClearJob(i: nat)
      requires i < jobs.Length
      modifies jobs
      ensures jobs[..] == old(jobs[..])[i := NO_JOB]
    {
      jobs[i] := Job(0, 0, UNDEF, "");
    }

    method InitJobs()
      modifies jobs
      ensures jobs[..] == seq(jobs.Length, _ => NO_JOB)
    {
      for i := 0 to jobs.Length
        invariant forall j :: 0 <= j < i ==> jobs[j] == NO_JOB
      {
        ClearJob(i);
      }
    }

    method MaxJid() returns (max: int)
      ensures max == MaxJidOf(jobs[..])
      ensures forall i :: 0 <= i < jobs.Length ==> jobs[i].jid <= max
      ensures max == 0 || exists i :: 0 <= i < jobs.Length && jobs[i].jid == max
    {
      max := 0;
      for i := 0 to jobs.Length
        invariant max == MaxJidOf(jobs[..i])
      {
        assert jobs[..i + 1][..i] == jobs[..i];
        if jobs[i].jid > max {
          max := jobs[i].jid;
        }
      }
      assert jobs[..jobs.Length] == jobs[..];
    }

    method AddJob(pid: int, state: JobState, cmdline: string) returns (ok: bool)
      modifies this`nextJid, jobs
      ensures T() == Added(old(T()), pid, state, cmdline)
      ensures ok ==> exists i ::
                && 0 <= i < jobs.Length && old(jobs[i].pid) == 0
                && (forall j :: 0 <= j < i ==> old(jobs[j].pid) != 0)
                && jobs[..] == old(jobs[..])[i := Job(pid, old(nextJid), state, cmdline)]
                && nextJid == if old(nextJid) >= 16 then 1 else old(nextJid) + 1
      ensures ok <==> pid >= 1 && exists i :: 0 <= i < jobs.Length && old(jobs[i].pid) == 0
    {
      if pid < 1 {
        return false;
      }
      for i := 0 to jobs.Length
        invariant FindPid(jobs[..], 0, 0) == FindPid(jobs[..], i, 0)
        invariant forall j :: 0 <= j < i ==> jobs[j].pid != 0
        invariant T() == old(T())
      {
        if jobs[i].pid == 0 {
          jobs[i] := Job(pid, nextJid, state, cmdline);
          nextJid := nextJid + 1;
          if nextJid > MAXJOBS {
            nextJid := 1;
          }
          return true;
        }
      }
      return false;
    }

    method DeleteJob(pid: int) returns (ok: bool)
      modifies this`nextJid, jobs
      ensures T() == Deleted(old(T()), pid)
      ensures ok ==> exists i ::
                && 0 <= i < jobs.Length && old(jobs[i].pid) == pid
                && (forall j :: 0 <= j < i ==> old(jobs[j].pid) != pid)
                && jobs[..] == old(jobs[..])[i := Job(0, 0, UNDEF, "")] && IsNextJid(jobs[..], nextJid)
      ensures ok <==> pid >= 1 && exists i :: 0 <= i < jobs.Length && old(jobs[i].pid) == pid
    {
      if pid < 1 {
        return false;
      }
      for i := 0 to jobs.Length
        invariant FindPid(jobs[..], 0, pid) == FindPid(jobs[..], i, pid)
        invariant forall j :: 0 <= j < i ==> jobs[j].pid != pid
        invariant T() == old(T())
      {
        if jobs[i].pid == pid {
          ClearJob(i);
          var max := MaxJid();
          nextJid := max + 1;
          return true;
        }
      }
      return false;
    }

    method FgPid() returns (pid: int)
      ensures pid == FgPidOf(jobs[..])
      ensures if forall i :: 0 <= i < jobs.Length ==> jobs[i].state != FG then pid == 0
              else exists i ::
                     && 0 <= i < jobs.Length && jobs[i].state == FG && jobs[i].pid == pid
                     && forall j :: 0 <= j < i ==> jobs[j].state != FG
    {
      for i := 0 to jobs.Length
        invariant FindFg(jobs[..], 0) == FindFg(jobs[..], i)
      {
        if jobs[i].state == FG {
          return jobs[i].pid;
        }
      }
      return 0;
    }

    /** The slot, or -1 for NULL. */
    method GetJobPid(pid: int) returns (slot: int)
      ensures slot == if pid < 1 || FindPid(jobs[..], 0, pid) == jobs.Length then -1 else FindPid(jobs[..], 0, pid)
      ensures slot == -1 <==> pid < 1 || forall i :: 0 <= i < jobs.Length ==> jobs[i].pid != pid
      ensures slot != -1 ==>
                0 <= slot < jobs.Length && jobs[slot].pid == pid && forall j :: 0 <= j < slot ==> jobs[j].pid != pid
    {
      if pid < 1 {
        return -1;
      }
      for i := 0 to jobs.Length
        invariant FindPid(jobs[..], 0, pid) == FindPid(jobs[..], i, pid)
      {
        if jobs[i].pid == pid {
          return i;
        }
      }
      return -1;
    }

    method GetJobJid(jid: int) returns (slot: int)
      ensures slot == if jid < 1 || FindJid(jobs[..], 0, jid) == jobs.Length then -1 else FindJid(jobs[..], 0, jid)
      ensures slot == -1 <==> jid < 1 || forall i :: 0 <= i < jobs.Length ==> jobs[i].jid != jid
      ensures slot != -1 ==>
                0 <= slot < jobs.Length && jobs[slot].jid == jid && forall j :: 0 <= j < slot ==> jobs[j].jid != jid
    {
      if jid < 1 {
        return -1;
      }
      for i := 0 to jobs.Length
        invariant FindJid(jobs[..], 0, jid) == FindJid(jobs[..], i, jid)
      {
        if jobs[i].jid == jid {
          return i;
        }
      }
      return -1;
    }
  }
}
