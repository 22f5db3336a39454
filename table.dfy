/** The master's process table as a value: one slot per worker process,
    the high-water mark `last`, and the pid search that both spawning and
    exit recording start with (main.c:35-60). */
module Table {

  /** Capacity of the table (main.c:35). */
  const MaxProcesses := 128

  /** Spawn policies, passed where a slot index would go on a respawn (main.c:36-40). */
  const NoRespawn := -1
  const JustSpawn := -2
  const Respawn := -3
  const JustRespawn := -4
  const Detached := -5

  /** The pid a hole carries: the reaper's marker for a retired slot. */
  const Hole := -1

  /** A process identifier as fork() hands it to the parent. */
  type Pid = x: int | x > 0 witness 1

  /** What fork() returned to the parent: the child's pid, or failure. */
  datatype Fork = ForkFailed | Forked(child: Pid)

  /** The worker's entry point, its argument and its name: the three
      addresses `spawn_process` stores, kept as opaque handles since the
      parent never looks behind them. */
  datatype Entry = Entry(func: int, data: int, name: int)

  /** One element of `cpx_processes` (main.c:43-56). */
  datatype Slot = Slot(pid: int, status: int, entry: Entry,
                       respawn: bool, justSpawn: bool, detached: bool,
                       exiting: bool, exited: bool)

  /** A slot as the zero-initialised global array holds it before any spawn. */
  const ZeroSlot := Slot(0, 0, Entry(0, 0, 0), false, false, false, false, false)

  /** `cpx_processes` together with `cpx_last_process`. */
  datatype Procs = Procs(slots: seq<Slot>, last: int) {

    /** The array has its fixed length and the high-water mark stays within it. */
    predicate WellFormed() {
      |slots| == MaxProcesses && 0 <= last <= MaxProcesses
    }

    /** Below the high-water mark every slot is a hole or holds a pid that
        fork() returned; in particular no such slot holds pid 0. */
    predicate Valid() {
      WellFormed() &&
      forall j :: 0 <= j < last ==> slots[j].pid == Hole || slots[j].pid > 0
    }
  }

  /** The table at process start: every slot zeroed, nothing in use. */
  function Initial(): (p: Procs)
    ensures p.Valid() && p.last == 0
    ensures forall j :: 0 <= j < |p.slots| ==> p.slots[j] == ZeroSlot
  {
    Procs(seq(MaxProcesses, _ => ZeroSlot), 0)
  }

  /** The lowest index below `bound` whose slot carries `pid`, or `bound`
      when there is none: the search loop of main.c:351-355 (for a hole)
      and of main.c:310-315 (for a reaped pid). */
  function FirstWithPid(slots: seq<Slot>, bound: int, pid: int): (k: int)
    requires 0 <= bound <= |slots|
    ensures 0 <= k <= bound
    ensures k < bound ==> slots[k].pid == pid
    ensures forall j :: 0 <= j < k ==> slots[j].pid != pid
    decreases bound
  {
    if bound == 0 then 0
    else
      var k := FirstWithPid(slots, bound - 1, pid);
      if k < bound - 1 then k
      else if slots[bound - 1].pid == pid then bound - 1
      else bound
  }

  /** The search looks at pids only: two tables that agree on every pid
      below the bound give the same answer. */
  lemma SearchReadsPidsOnly(a: seq<Slot>, b: seq<Slot>, bound: int, pid: int)
    requires 0 <= bound <= |a| && |a| == |b|
    requires forall j :: 0 <= j < bound ==> a[j].pid == b[j].pid
    ensures FirstWithPid(a, bound, pid) == FirstWithPid(b, bound, pid)
  {
  }
}
