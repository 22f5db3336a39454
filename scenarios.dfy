/** End-to-end runs of the master: the start-up population, exit
    notifications and one reap pass, for any number of workers and any
    fork outcomes that give them distinct pids. The outcomes are first
    computed on table values and then obtained again by driving a
    `Supervisor.Master` through its constructor, `StartWorkers`,
    `SigChild`, `ReapChildren` and `Step`. */
module Scenarios {
  import opened Table
  import opened Spawner
  import opened ExitNotifier
  import opened Reaper
  import opened Supervisor

  /** The first `n` forks succeed and hand out distinct pids. */
  predicate DistinctChildren(n: nat, forks: seq<Fork>) {
    n <= |forks| &&
    (forall j :: 0 <= j < n ==> forks[j].Forked?) &&
    (forall i, j :: 0 <= i < n && 0 <= j < n && i != j ==> forks[i].child != forks[j].child)
  }

  /** The `waitpid` answers when the children of `forks[0..n]` have all
      exited, followed by the "no child ready" answer: a stream the handler
      consumes whole. */
  function ExitsOf(n: nat, forks: seq<Fork>): (ws: seq<WaitResult>)
    requires DistinctChildren(n, forks)
    ensures HasTerminator(ws) && Consumed(ws) == ws
  {
    var ws := seq(n, j requires 0 <= j < n => WaitResult(forks[j].child, 0)) + [WaitResult(0, 0)];
    ConsumedWholeStream(ws);
    ws
  }

  /** In the table just after start-up, each child's exit reaches the
      child's own slot. */
  lemma ExitReachesOwnSlot(n: nat, forks: seq<Fork>, j: int)
    requires DistinctChildren(n, forks) && n <= MaxProcesses && 0 <= j < n
    ensures Hits(StartAll(Initial(), n, forks), WaitResult(forks[j].child, 0), j)
  {
    var p := StartAll(Initial(), n, forks);
    StartFromInitial(n, forks);
    var k := FirstWithPid(p.slots, p.last, forks[j].child);
    assert p.slots[j].pid == forks[j].child;
  }

  /** The table after start-up and all `n` exits. */
  function Drained(n: nat, forks: seq<Fork>): (p: Procs)
    requires DistinctChildren(n, forks) && n <= MaxProcesses
    ensures p.WellFormed()
  {
    RecordExits(StartAll(Initial(), n, forks), ExitsOf(n, forks))
  }

  /** After start-up and all `n` exits, every slot below `n` still holds
      its child's pid and is marked exited. */
  lemma AllExited(n: nat, forks: seq<Fork>)
    requires DistinctChildren(n, forks) && n <= MaxProcesses
    ensures var p := Drained(n, forks);
            p.last == n &&
            forall j :: 0 <= j < n ==> p.slots[j].pid == forks[j].child && p.slots[j].exited
  {
    var p0 := StartAll(Initial(), n, forks);
    var ws := ExitsOf(n, forks);
    StartFromInitial(n, forks);
    forall j | 0 <= j < n
      ensures RecordAll(p0, ws).slots[j].exited
    {
      ExitReachesOwnSlot(n, forks, j);
      EveryHitMarked(p0, ws, j, j);
    }
  }

  /** A quitting sweep over that table retires every worker. */
  lemma DrainOutcome(n: nat, forks: seq<Fork>)
    requires 0 < n <= MaxProcesses && |forks| == MaxProcesses && DistinctChildren(n, forks)
    ensures var r := Reap(Drained(n, forks), true, forks);
            !r.live && r.procs.last == n - 1 &&
            forall j :: 0 <= j < r.procs.last ==> r.procs.slots[j].pid == Hole
  {
    AllExited(n, forks);
    DrainCompletes(Drained(n, forks), forks);
  }

  /** The `waitpid` answers when only the child of slot `i` has exited:
      again a stream the handler consumes whole. */
  function OneExitOf(forks: seq<Fork>, i: int): (ws: seq<WaitResult>)
    requires 0 <= i < |forks| && forks[i].Forked?
    ensures HasTerminator(ws) && Consumed(ws) == ws
  {
    var ws := [WaitResult(forks[i].child, 0), WaitResult(0, 0)];
    ConsumedWholeStream(ws);
    ws
  }

  /** The table after start-up and the exit of worker `i`. */
  function OneExit(n: nat, forks: seq<Fork>, i: int): (p: Procs)
    requires DistinctChildren(n, forks) && n <= MaxProcesses && 0 <= i < n
    ensures p.WellFormed()
  {
    RecordExits(StartAll(Initial(), n, forks), OneExitOf(forks, i))
  }

  /** The exit of worker `i` marks its slot and no other. */
  lemma OneExitMarksOnly(n: nat, forks: seq<Fork>, i: int)
    requires DistinctChildren(n, forks) && n <= MaxProcesses && 0 <= i < n
    ensures var p := OneExit(n, forks, i);
            p.last == n &&
            p.slots[i] == Mark(FreshWorker(i, forks[i].child), 0) &&
            forall j :: 0 <= j < n && j != i ==> p.slots[j] == FreshWorker(j, forks[j].child)
  {
    var p0 := StartAll(Initial(), n, forks);
    var ws := OneExitOf(forks, i);
    StartFromInitial(n, forks);
    // the child's answer marks its own slot, the "no child ready" answer nothing
    ExitReachesOwnSlot(n, forks, i);
    var p1 := RecordExit(p0, ws[0]);
    assert RecordAll(p0, ws[..1]) == p1 by {
      assert ws[..1][..0] == [];
    }
    assert ws[..|ws| - 1] == ws[..1];
    assert p1.Valid();
    NoChildReadyHitsNothing(p1, 0);
  }

  /** A running sweep after that exit puts the new child into slot `i`,
      which becomes a fresh worker again; the high-water mark stays and the
      sweep reports live. */
  lemma RespawnOutcome(n: nat, forks: seq<Fork>, i: int, again: seq<Fork>)
    requires DistinctChildren(n, forks) && n <= MaxProcesses && 0 <= i < n
    requires |again| == MaxProcesses && again[i].Forked?
    ensures var r := Reap(OneExit(n, forks, i), false, again);
            r.procs.slots[i] == FreshWorker(i, again[i].child) && r.procs.last == n && r.live
  {
    var p := OneExit(n, forks, i);
    OneExitMarksOnly(n, forks, i);
    RespawnInPlace(p, false, again, i);
    ReapLast(p, false, again);
    assert !Retires(p.slots[n - 1], false);
  }

  /** The master on its own state: a fresh master with `n` workers
      started, as `main` leaves it before its loop (main.c:496-504). */
  method StartMaster(n: nat, forks: seq<Fork>) returns (m: Master)
    requires n <= MaxProcesses && n <= |forks|
    ensures fresh(m) && fresh(m.slots) && m.Valid() && !m.reap && !m.terminate && !m.quit
    ensures m.State() == StartAll(Initial(), n, forks)
  {
    m := new Master();
    m.StartWorkers(n, forks);
  }

  /** Then the handler sees every worker exit. */
  method StartThenAllExit(n: nat, forks: seq<Fork>) returns (m: Master)
    requires n <= MaxProcesses && DistinctChildren(n, forks)
    ensures fresh(m) && fresh(m.slots) && m.Valid() && m.reap && !m.terminate && !m.quit
    ensures m.State() == Drained(n, forks)
  {
    m := StartMaster(n, forks);
    var _ := m.SigChild(ExitsOf(n, forks));
  }

  /** Graceful drain on the master: after those exits, a quit request and
      one sweep leave nothing live and the high-water mark at `n - 1`. */
  method GracefulDrain(n: nat, forks: seq<Fork>) returns (live: bool, last: int)
    requires 0 < n <= MaxProcesses && |forks| == MaxProcesses && DistinctChildren(n, forks)
    ensures !live && last == n - 1
  {
    var m := StartThenAllExit(n, forks);
    live := QuitAndSweep(m, forks);
    DrainOutcome(n, forks);
    last := m.lastProcess;
  }

  /** `cpx_quit` set, then the sweep the master loop runs. */
  method QuitAndSweep(m: Master, forks: seq<Fork>) returns (live: bool)
    requires m.Valid() && |forks| == MaxProcesses
    modifies m, m.slots
    ensures m.Valid() && Reaped(m.State(), live) == Reap(old(m.State()), true, forks)
  {
    m.quit := true;
    live := m.ReapChildren(forks);
  }

  /** A fresh master starts `n` workers and its handler sees worker `i`
      exit. */
  method StartThenOneExits(n: nat, forks: seq<Fork>, i: int) returns (m: Master)
    requires n <= MaxProcesses && DistinctChildren(n, forks) && 0 <= i < n
    ensures fresh(m) && fresh(m.slots) && m.Valid() && m.reap && !m.terminate && !m.quit
    ensures m.State() == OneExit(n, forks, i)
  {
    m := StartMaster(n, forks);
    var _ := m.SigChild(OneExitOf(forks, i));
  }

  /** Respawn on the master: start `n` workers, let worker `i` exit, and
      run one turn of the master loop while fork() returns `child`. Slot
      `i` then runs `child` as a fresh worker and the mark stays at `n`. */
  method RespawnAfterExit(n: nat, forks: seq<Fork>, i: int, child: Pid) returns (s: Slot, last: int)
    requires n <= MaxProcesses && DistinctChildren(n, forks) && 0 <= i < n
    ensures s == FreshWorker(i, child) && last == n
  {
    var m := StartThenOneExits(n, forks, i);
    var again := seq(MaxProcesses, _ => Forked(child));
    RespawnOutcome(n, forks, i, again);
    m.Step(again);
    s, last := m.slots[i], m.lastProcess;
    assert s == m.State().slots[i];
  }
}
