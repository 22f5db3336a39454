/** What `spawn_process` does to the table, in the parent process
    (main.c:345-424): slot selection, the policy switch, and the
    high-water-mark bump. */
module Spawner {
  import opened Table

  /** The five policies the switch of main.c:388-419 recognises. */
  predicate IsPolicy(policy: int) {
    Detached <= policy <= NoRespawn
  }

  /** The policy whose row of the table in main.c:388-414 the slot's
      `respawn`, `justSpawn` and `detached` bits spell, or 0 when the bits
      spell no row (both `respawn` and `detached`, say). */
  function PolicyOf(s: Slot): int {
    match (s.respawn, s.justSpawn, s.detached)
    case (false, false, false) => NoRespawn
    case (false, true, false) => JustSpawn
    case (true, false, false) => Respawn
    case (true, true, false) => JustRespawn
    case (false, false, true) => Detached
    case _ => 0
  }

  /** The policy switch of main.c:388-419: a recognised policy sets the
      three bits so that they spell that policy back; any other value leaves
      the slot exactly as it was. Nothing but the three bits ever changes. */
  function ApplyPolicy(policy: int, s: Slot): (r: Slot)
    ensures IsPolicy(policy) ==> PolicyOf(r) == policy
    ensures !IsPolicy(policy) ==> r == s
    ensures r == s.(respawn := r.respawn, justSpawn := r.justSpawn, detached := r.detached)
  {
    if policy == NoRespawn then s.(respawn := false, justSpawn := false, detached := false)
    else if policy == JustSpawn then s.(respawn := false, justSpawn := true, detached := false)
    else if policy == Respawn then s.(respawn := true, justSpawn := false, detached := false)
    else if policy == JustRespawn then s.(respawn := true, justSpawn := true, detached := false)
    else if policy == Detached then s.(respawn := false, justSpawn := false, detached := true)
    else s
  }

  /** A recognised policy never marks a slot both respawning and detached. */
  lemma PolicyNeverRespawnsDetached(policy: int, s: Slot)
    requires IsPolicy(policy)
    ensures !(ApplyPolicy(policy, s).respawn && ApplyPolicy(policy, s).detached)
  {
  }

  /** The slot `spawn_process` works on: the given index on a respawn in
      place, else the lowest hole below the high-water mark, else the
      high-water mark itself (main.c:348-355). */
  function TargetSlot(p: Procs, policy: int): (k: int)
    requires p.WellFormed()
    ensures policy >= 0 ==> k == policy
    ensures policy < 0 ==> 0 <= k <= p.last
    ensures policy < 0 && k < p.last ==> p.slots[k].pid == Hole
    ensures policy < 0 ==> forall j :: 0 <= j < k ==> p.slots[j].pid != Hole
  {
    if policy >= 0 then policy else FirstWithPid(p.slots, p.last, Hole)
  }

  /** The new table and the value `spawn_process` returns. */
  datatype Spawned = Spawned(procs: Procs, pid: int)

  /** `spawn_process(proc_func, data, name, policy)` in the parent, with the
      fork outcome as an input (main.c:345-424). */
  function SpawnSpec(p: Procs, entry: Entry, policy: int, fork: Fork): (r: Spawned)
    requires p.WellFormed() && policy < MaxProcesses
    ensures r.procs.WellFormed()
  {
    var k := TargetSlot(p, policy);
    if policy < 0 && k == MaxProcesses then Spawned(p, -1)
    else match fork
      case ForkFailed => Spawned(p, -1)
      case Forked(child) =>
        var s := p.slots[k].(pid := child, exited := false);
        if policy >= 0 then Spawned(p.(slots := p.slots[k := s]), child)
        else
          var s' := ApplyPolicy(policy, s.(entry := entry, exiting := false));
          Spawned(Procs(p.slots[k := s'], if k == p.last then p.last + 1 else p.last), child)
  }

  /** What `spawn_process` promises its callers. */
  lemma SpawnContract(p: Procs, entry: Entry, policy: int, fork: Fork)
    requires p.WellFormed() && policy < MaxProcesses
    // -1 means failure; it comes from a full table or a failed fork, and a
    // failure leaves the table exactly as it was
    ensures var r := SpawnSpec(p, entry, policy, fork);
            r.pid == -1 || r.pid > 0
    ensures var r := SpawnSpec(p, entry, policy, fork);
            r.pid == -1 <==> fork.ForkFailed? || TargetSlot(p, policy) == MaxProcesses
    ensures var r := SpawnSpec(p, entry, policy, fork);
            r.pid == -1 ==> r.procs == p
    // the high-water mark grows by one exactly when a first spawn used it
    ensures var r := SpawnSpec(p, entry, policy, fork);
            r.procs.last == if r.pid > 0 && policy < 0 && TargetSlot(p, policy) == p.last
                            then p.last + 1 else p.last
    // only the target slot changes, and it now runs the child
    ensures var r := SpawnSpec(p, entry, policy, fork);
            r.pid > 0 ==>
              var k := TargetSlot(p, policy);
              r.pid == fork.child && r.procs.slots == p.slots[k := r.procs.slots[k]] &&
              r.procs.slots[k].pid == fork.child && !r.procs.slots[k].exited
    // a respawn in place keeps status, entry point and every flag but `exited`
    ensures var r := SpawnSpec(p, entry, policy, fork);
            r.pid > 0 && policy >= 0 ==>
              r.procs.slots[policy] == p.slots[policy].(pid := fork.child, exited := false)
    // a first spawn installs the entry point, clears `exiting`, and sets the
    // policy bits; status survives from the slot's previous occupant
    ensures var r := SpawnSpec(p, entry, policy, fork);
            r.pid > 0 && policy < 0 ==>
              var k := TargetSlot(p, policy);
              r.procs.slots[k] ==
                ApplyPolicy(policy, p.slots[k].(pid := fork.child, exited := false,
                                                entry := entry, exiting := false))
  {
  }

  /** A spawn keeps every slot below the high-water mark either a hole or
      a live pid. */
  lemma SpawnKeepsValid(p: Procs, entry: Entry, policy: int, fork: Fork)
    requires p.Valid() && policy < MaxProcesses
    ensures SpawnSpec(p, entry, policy, fork).procs.Valid()
  {
  }

  /** Capacity: a first spawn fails on a full table only, that is when every
      slot is in use and none of them is a hole; a table with a hole or with
      room at the top accepts it whenever fork() succeeds. */
  lemma {:induction false} ExhaustedExactlyWhenFull(p: Procs, entry: Entry, policy: int, child: Pid)
    requires p.WellFormed() && policy < 0
    ensures SpawnSpec(p, entry, policy, Forked(child)).pid == -1 <==>
              p.last == MaxProcesses && forall j :: 0 <= j < MaxProcesses ==> p.slots[j].pid != Hole
  {
  }

  /** A first spawn reuses the lowest hole before it grows the table. */
  lemma {:induction false} HoleReusedFirst(p: Procs, entry: Entry, policy: int, child: Pid, h: int)
    requires p.WellFormed() && policy < 0
    requires 0 <= h < p.last && p.slots[h].pid == Hole
    requires forall j :: 0 <= j < h ==> p.slots[j].pid != Hole
    ensures var r := SpawnSpec(p, entry, policy, Forked(child));
            r.pid == child && r.procs.last == p.last && r.procs.slots[h].pid == child
  {
  }

  /** A stand-in for `cpx_worker_process_cycle`, the entry point of every
      initial worker. */
  const WorkerFunc := 1

  /** A stand-in for the address of the string "worker process", the name
      every initial worker is given. */
  const WorkerName := 2

  /** The entry point of the `i`th initial worker: its index is the
      callback's argument (main.c:502). */
  function WorkerEntry(i: int): Entry {
    Entry(WorkerFunc, i, WorkerName)
  }

  /** The table after `start_worker_processes` spawned the first `n`
      workers with policy Respawn, `forks[i]` being the `i`th fork outcome
      (main.c:496-504). */
  function StartAll(p: Procs, n: nat, forks: seq<Fork>): (r: Procs)
    requires p.WellFormed() && n <= |forks|
    ensures r.WellFormed()
  {
    if n == 0 then p
    else SpawnSpec(StartAll(p, n - 1, forks), WorkerEntry(n - 1), Respawn, forks[n - 1]).procs
  }

  /** Start-up keeps the table invariant, whatever fork() returns. */
  lemma {:induction false} StartAllKeepsValid(p: Procs, n: nat, forks: seq<Fork>)
    requires p.Valid() && n <= |forks|
    ensures StartAll(p, n, forks).Valid()
  {
    if n > 0 {
      StartAllKeepsValid(p, n - 1, forks);
      SpawnKeepsValid(StartAll(p, n - 1, forks), WorkerEntry(n - 1), Respawn, forks[n - 1]);
    }
  }

  /** A freshly started worker slot. */
  function FreshWorker(i: int, child: Pid): Slot {
    Slot(child, 0, WorkerEntry(i), true, false, false, false, false)
  }

  /** From the zeroed table with every fork succeeding, the start-up loop
      fills slots 0 to n-1 in order with respawning workers and raises the
      high-water mark to n; the rest of the table stays zeroed. */
  lemma {:induction false} StartFromInitial(n: nat, forks: seq<Fork>)
    requires n <= |forks| && n <= MaxProcesses
    requires forall j :: 0 <= j < n ==> forks[j].Forked?
    ensures var r := StartAll(Initial(), n, forks);
            r.last == n &&
            (forall j :: 0 <= j < n ==> r.slots[j] == FreshWorker(j, forks[j].child)) &&
            (forall j :: n <= j < MaxProcesses ==> r.slots[j] == ZeroSlot)
  {
    if n > 0 {
      StartFromInitial(n - 1, forks);
    }
  }
}
