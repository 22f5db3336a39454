/** The master process's state as the program keeps it: the global slot
    array, the high-water mark and the three signal flags (main.c:58-74),
    with the operations that update them in place. Each operation is proved
    to leave the state that the value-level functions of `Spawner`,
    `ExitNotifier` and `Reaper` describe. */
module Supervisor {
  import opened Table
  import opened Spawner
  import opened ExitNotifier
  import opened Reaper

  class Master {
    /** `cpx_processes` */
    var slots: array<Slot>
    /** `cpx_last_process` */
    var lastProcess: int
    /** `cpx_reap`, `cpx_terminate`, `cpx_quit` */
    var reap: bool
    var terminate: bool
    var quit: bool

    /** The table as a value. */
    ghost function State(): Procs
      reads this`slots, this`lastProcess, slots
    {
      Procs(slots[..], lastProcess)
    }

    /** The array has its fixed length and the mark stays within it. */
    ghost predicate Sized()
      reads this`slots, this`lastProcess
    {
      slots.Length == MaxProcesses && 0 <= lastProcess <= MaxProcesses
    }

    /** The table invariant of `Procs.Valid` holds of the globals. */
    ghost predicate Valid()
      reads this`slots, this`lastProcess, slots
    {
      Sized() && State().Valid()
    }

    /** The globals as the program starts: everything zero. */
    constructor ()
      ensures Valid() && fresh(slots)
      ensures State() == Initial() && !reap && !terminate && !quit
    {
      slots := new Slot[MaxProcesses](_ => ZeroSlot);
      lastProcess := 0;
      reap, terminate, quit := false, false, false;
      new;
      assert slots[..] == Initial().slots;
    }

    /** The search loop shared by `spawn_process` (main.c:351-355, looking
        for a hole) and `sig_child` (main.c:310-315, looking for a reaped
        pid): the first slot below the high-water mark with that pid. */
    method IndexOf(pid: int) returns (k: int)
      requires Sized()
      ensures k == FirstWithPid(slots[..], lastProcess, pid)
      ensures 0 <= k <= lastProcess
      ensures k < lastProcess ==> slots[k].pid == pid
      ensures forall j :: 0 <= j < k ==> slots[j].pid != pid
    {
      k := 0;
      while k < lastProcess && slots[k].pid != pid
        invariant 0 <= k <= lastProcess
        invariant forall j :: 0 <= j < k ==> slots[j].pid != pid
      {
        k := k + 1;
      }
      ghost var f := FirstWithPid(slots[..], lastProcess, pid);
      assert k < lastProcess ==> slots[..][k].pid == pid;
      assert forall j :: 0 <= j < k ==> slots[..][j].pid != pid;
    }

    /** `spawn_process(proc_func, data, name, policy)` in the parent, with
        `fork` the outcome of fork() (main.c:345-424). */
    method Spawn(entry: Entry, policy: int, fork: Fork) returns (pid: int)
      requires Sized() && policy < MaxProcesses
      modifies this`lastProcess, slots
      ensures Sized() && (old(Valid()) ==> Valid())
      ensures State() == SpawnSpec(old(State()), entry, policy, fork).procs
      ensures pid == SpawnSpec(old(State()), entry, policy, fork).pid
    {
      if Valid() {
        SpawnKeepsValid(State(), entry, policy, fork);
      }
      pid := SpawnSteps(entry, policy, fork);
    }

    /** The statements of `spawn_process` in the parent, in order: find the
        slot, fork, record the child, and for a first spawn fill in the
        entry point, apply the policy and raise the mark (main.c:349-421). */
    method SpawnSteps(entry: Entry, policy: int, fork: Fork) returns (pid: int)
      requires Sized() && policy < MaxProcesses
      modifies this`lastProcess, slots
      ensures Sized()
      ensures State() == SpawnSpec(old(State()), entry, policy, fork).procs
      ensures pid == SpawnSpec(old(State()), entry, policy, fork).pid
    {
      var slot: int;
      if policy >= 0 {
        slot := policy;
      } else {
        slot := IndexOf(Hole);
        if slot == MaxProcesses {
          return -1;
        }
      }
      match fork {
        case ForkFailed =>
          return -1;
        case Forked(child) =>
          pid := child;
      }
      slots[slot] := slots[slot].(pid := pid, exited := false);
      if policy >= 0 {
        return;
      }
      slots[slot] := slots[slot].(entry := entry, exiting := false);
      slots[slot] := ApplyPolicy(policy, slots[slot]);
      if slot == lastProcess {
        lastProcess := lastProcess + 1;
      }
    }

    /** `start_worker_processes(PROCESS_RESPAWN)` for `ncpu` workers, the
        `i`th spawn seeing fork outcome `forks[i]` (main.c:496-504). */
    method StartWorkers(ncpu: nat, forks: seq<Fork>)
      requires Sized() && ncpu <= |forks|
      modifies this`lastProcess, slots
      ensures Sized() && (old(Valid()) ==> Valid())
      ensures State() == StartAll(old(State()), ncpu, forks)
    {
      ghost var p0 := State();
      if Valid() {
        StartAllKeepsValid(p0, ncpu, forks);
      }
      var i := 0;
      while i < ncpu
        invariant 0 <= i <= ncpu && Sized()
        invariant State() == StartAll(p0, i, forks)
      {
        StartOne(p0, i, forks);
        i := i + 1;
      }
    }

    /** One pass of the loop of `start_worker_processes`: the `i`th worker
        joins the table that the first `i` spawns left behind. */
    method StartOne(ghost p0: Procs, i: nat, forks: seq<Fork>)
      requires Sized() && p0.WellFormed() && i < |forks|
      requires State() == StartAll(p0, i, forks)
      modifies this`lastProcess, slots
      ensures Sized() && (old(Valid()) ==> Valid())
      ensures State() == StartAll(p0, i + 1, forks)
    {
      var _ := Spawn(WorkerEntry(i), Respawn, forks[i]);
    }

    /** One pass of the inner loop of `sig_child`: mark the first slot
        below the high-water mark carrying `w.pid` exited with `w.status`
        (main.c:310-316). */
    method RecordOne(w: WaitResult)
      requires Sized()
      modifies slots
      ensures Sized()
      ensures State() == RecordExit(old(State()), w)
    {
      var k := IndexOf(w.pid);
      if k < lastProcess {
        slots[k] := Mark(slots[k], w.status);
        assert slots[..] == old(slots[..])[k := Mark(old(slots[..])[k], w.status)];
      }
    }

    /** The do-while of `sig_child`: record every answer of `waitpid` up
        to and including the first that is not a pid (main.c:308-317).
        Returns how many answers it consumed. */
    method RecordAnswers(ws: seq<WaitResult>) returns (consumed: nat)
      requires Sized() && HasTerminator(ws)
      modifies slots
      ensures Sized()
      ensures State() == RecordExits(old(State()), ws)
      ensures consumed == |Consumed(ws)|
    {
      ghost var p0 := State();
      ghost var f := FirstTerminator(ws);
      RecordExitsUpTo(p0, ws, f);
      var i := 0;
      while true
        invariant 0 <= i <= f
        invariant Sized() && State() == RecordAll(p0, ws[..i])
        decreases f - i
      {
        var w := ws[i];
        RecordStep(p0, ws, i);
        i := i + 1;
        if w.pid <= 0 {
          break;
        }
      }
      consumed := i;
    }

    /** The same pass seen from the do-while: the table is now the one
        the first `i + 1` answers make of the table on entry. */
    method RecordStep(ghost p0: Procs, ws: seq<WaitResult>, i: nat)
      requires Sized() && p0.WellFormed() && i < |ws|
      requires State() == RecordAll(p0, ws[..i])
      modifies slots
      ensures Sized() && State() == RecordAll(p0, ws[..i + 1])
    {
      assert ws[..i + 1][..i] == ws[..i];
      RecordOne(ws[i]);
    }

    /** The SIGCHLD handler minus its re-arming: it sets `cpx_reap`, then
        records the answers of `waitpid` (main.c:301-317). */
    method SigChild(ws: seq<WaitResult>) returns (consumed: nat)
      requires Valid() && HasTerminator(ws)
      modifies this`reap, slots
      ensures Valid() && reap
      ensures State() == RecordExits(old(State()), ws)
      ensures consumed == |Consumed(ws)|
    {
      RecordAllKeepsValid(State(), Consumed(ws));
      reap := true;
      consumed := RecordAnswers(ws);
    }

    /** One iteration of the loop of `cpx_reap_children` at slot `i`
        (main.c:431-473); `live` is the flag so far and `fork` what fork()
        returns if the slot is respawned. */
    method VisitOne(i: int, fork: Fork, live: bool) returns (live': bool)
      requires Sized() && 0 <= i < lastProcess
      modifies this`lastProcess, slots
      ensures Sized()
      ensures Reaped(State(), live') == VisitSlot(old(State()), i, terminate || quit, fork, live)
    {
      live' := live;
      var s := slots[i];
      if s.pid == Hole {
        // a retired slot is skipped
      } else if s.exited {
        if s.respawn && !s.exiting && !terminate && !quit {
          var pid := Spawn(s.entry, i, fork);
          if pid != -1 {
            live' := true;
          }
        } else if i == lastProcess - 1 {
          lastProcess := lastProcess - 1;
        } else {
          slots[i] := s.(pid := Hole);
          assert slots[..] == old(slots[..])[i := s.(pid := Hole)];
        }
      } else if s.exiting || !s.detached {
        live' := true;
      }
    }

    /** `cpx_reap_children()` (main.c:426-476), `forks[i]` being the fork
        outcome if slot `i` is respawned. */
    method ReapChildren(forks: seq<Fork>) returns (live: bool)
      requires Valid() && |forks| == MaxProcesses
      modifies this`lastProcess, slots
      ensures Valid()
      ensures Reaped(State(), live) == Reap(old(State()), terminate || quit, forks)
    {
      ghost var stop := terminate || quit;
      ghost var target := Reap(State(), stop, forks);
      ReapFromKeepsValid(State(), 0, stop, forks, false);
      live := false;
      var i := 0;
      while i < lastProcess
        invariant 0 <= i && Sized()
        invariant ReapFrom(State(), i, stop, forks, live) == target
        decreases MaxProcesses - i
      {
        live := SweepStep(stop, forks, target, i, live);
        i := i + 1;
      }
    }

    /** The same iteration seen from the sweep: what is left to do from
        `i + 1` on the new table is what was left from `i` on the old, and
        both come to `target`. */
    method SweepStep(ghost stop: bool, forks: seq<Fork>, ghost target: Reaped, i: int, live: bool)
        returns (live': bool)
      requires Sized() && 0 <= i < lastProcess && |forks| == MaxProcesses
      requires stop == (terminate || quit)
      requires ReapFrom(State(), i, stop, forks, live) == target
      modifies this`lastProcess, slots
      ensures Sized() && ReapFrom(State(), i + 1, stop, forks, live') == target
    {
      live' := VisitOne(i, forks[i], live);
    }

    /** One turn of the master loop after `sigsuspend` returns: if a child
        exit was recorded, clear the flag and sweep (main.c:533-538). The
        sweep's result is discarded, as in the source. */
    method Step(forks: seq<Fork>)
      requires Valid() && |forks| == MaxProcesses
      modifies this`reap, this`lastProcess, slots
      ensures Valid() && !reap
      ensures old(reap) ==> State() == Reap(old(State()), terminate || quit, forks).procs
      ensures !old(reap) ==> State() == old(State())
    {
      if reap {
        reap := false;
        var _ := ReapChildren(forks);
      }
    }
  }
}
