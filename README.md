# cpx_https master: the process-table supervisor

This project models the bookkeeping that the master process of cpx_https
does on its table of worker processes. It is written in Dafny, and
`main.c` is the program it models.

The table is the global array `cpx_processes` of 128 slots plus the
high-water mark `cpx_last_process`. Four pieces of code act on it:

- `spawn_process` picks a slot, records the child's pid and turns the
  spawn policy into the `respawn`/`just_spawn`/`detached` bits.
- The SIGCHLD handler `sig_child` drains `waitpid` and marks the matching
  slots exited with their status.
- `cpx_reap_children` sweeps the table. Each exited worker is respawned
  in place or retired: the tail by lowering the mark, any other slot by
  becoming a hole with pid -1. The sweep also computes the `live` flag.
- The master loop clears `cpx_reap` and then runs the sweep.

Beside these sits the keyword decision of the `-k` option.

## Layout

- `table.dfy` (module `Table`): the slot record, the table as a value
  (`Procs`), its invariant, the zeroed start state and the pid search both
  loops begin with.
- `spawner.dfy` (module `Spawner`): `spawn_process` as a function of the
  table (`SpawnSpec`), the policy switch and the start-up loop.
- `exit_notifier.dfy` (module `ExitNotifier`): the exit-recording loop of
  the handler as a function of the table and the stream of `waitpid`
  answers.
- `reaper.dfy` (module `Reaper`): the sweep as a function of the table,
  plus its slot-by-slot closed form and the shutdown properties.
- `supervisor.dfy` (module `Supervisor`): class `Master`. It holds the
  globals as fields (`slots: array<Slot>`, `lastProcess` and the three
  flags). Its methods update those fields in place, with the source's
  loops. Each method is proved to leave exactly the state that the
  functions above compute from the old state.
- `scenarios.dfy` (module `Scenarios`): end-to-end facts about runs of
  the system: start-up, then exits, then one sweep. They are proved on
  table values and again by driving a `Master` object through the same
  calls.
- `options.dfy` (module `Options`): the `-k` keyword match.

## How the environment enters

- fork() is an input of type `Fork`: either `ForkFailed` or
  `Forked(child)` with `child > 0`. Only the parent's side is modelled.
- The sweep takes `forks: seq<Fork>` indexed by slot, because each slot is
  tried at most once per sweep.
- The handler takes the `waitpid` answers as a sequence of `WaitResult`.
- The start-up loop takes the CPU count `ncpu` as a parameter.
- `cpx_terminate` and `cpx_quit` are fields that no method assigns, just
  as in the source.

## Two behaviours of the code worth knowing

`main.c` does two things a reader might not expect. The model keeps both.

- **Tail shrinking.** One might expect the high-water mark to keep
  shrinking while the new tail is unused. The code lowers it by exactly
  one per retired tail (main.c:465-466), and the retired tail keeps its
  pid. Lemma `Reaper.TailShrinksOnce` states this.
- **Which slots retire.** One might expect only non-detached slots to be
  retired. The code retires any exited slot that does not qualify for a
  respawn, detached or not (main.c:452-470).

The "no children" answer -1 also goes through the matching loop, so it
marks the lowest hole exited (`ExitNotifier.NoChildrenMarksFirstHole`).
This does no harm: the sweep skips holes, and a spawn that reuses the
hole clears `exited`.

## Model

| member | source | states |
|---|---|---|
| Table.Initial | main.c:58-60 | the zero-initialised globals: every slot is `ZeroSlot` (pid 0), the mark is 0, and the table invariant holds |
| Table.FirstWithPid | main.c:351-355 | the search returns an index no larger than the bound; below the bound, the slot found carries the pid and no earlier slot does |
| Table.SearchReadsPidsOnly | main.c:310-315 | the search depends only on the pids below the bound |
| Spawner.ApplyPolicy | main.c:388-419 | each of the five policies sets the three bits so that they spell that policy (0/0/0, 0/1/0, 1/0/0, 1/1/0, 0/0/1); an unrecognised value leaves the slot unchanged; no other field is ever touched |
| Spawner.PolicyNeverRespawnsDetached | main.c:388-419 | no recognised policy makes a slot both respawning and detached |
| Spawner.TargetSlot | main.c:348-359 | a respawn uses the given index; a first spawn uses the lowest hole below the mark, or else the mark itself |
| Spawner.SpawnSpec | main.c:345-424 | a spawn keeps the table well formed, so the mark never exceeds 128 |
| Spawner.SpawnContract | main.c:345-424 | the result is -1 or a pid; it is -1 exactly when fork() fails or a first spawn finds no slot; -1 leaves the table unchanged; the mark grows by one exactly when a first spawn used it; only the target slot changes and it runs the child with `exited` clear; a respawn in place keeps every other field; a first spawn installs the entry point, clears `exiting` and applies the policy |
| Spawner.SpawnKeepsValid | main.c:377-378 | a spawn keeps every slot below the mark a hole or a positive pid |
| Spawner.ExhaustedExactlyWhenFull | main.c:351-359 | when fork() succeeds, a first spawn fails exactly when the mark is 128 and no slot is a hole |
| Spawner.HoleReusedFirst | main.c:351-355 | a first spawn takes the lowest hole and does not move the mark |
| Spawner.StartAll | main.c:496-504 | the start-up loop keeps the table well formed |
| Spawner.StartAllKeepsValid | main.c:496-504 | whatever fork() returns, the start-up loop keeps the table invariant |
| Spawner.StartFromInitial | main.c:496-504 | from the zeroed table, with all forks succeeding, start-up fills slots 0..n-1 in order with respawning workers whose argument is their index, sets the mark to n, and leaves the rest zeroed |
| ExitNotifier.Consumed | main.c:308-317 | the handler consumes a prefix of the answers; every consumed answer except the last is a pid; the last one is the first answer that is not a pid (or all answers are consumed if there is none) |
| ExitNotifier.RecordExit | main.c:310-316 | one answer marks exactly the first slot below the mark that carries its pid, setting `exited` and its status; every other slot and the mark are unchanged |
| ExitNotifier.RecordExits | main.c:308-317 | the handler's loop keeps the table well formed and never moves the mark; `RecordAllPointwise` and `EveryHitMarked` say slot by slot what it changes |
| ExitNotifier.RecordAll | main.c:310-316 | recording exits changes only `status` and `exited`, never a pid or the mark |
| ExitNotifier.RecordAllKeepsValid | main.c:311-313 | recording exits keeps the table invariant |
| ExitNotifier.FirstTerminator | main.c:317 | on a stream with a terminator, the first answer that is not a pid exists, and every earlier answer is a pid |
| ExitNotifier.RecordExitsUpTo | main.c:308-317 | a run that stops at answer `f`, the first that is not a pid, consumes exactly the answers `0..f` and records exactly those |
| ExitNotifier.ConsumedWholeStream | main.c:308-317 | a stream whose answers are all pids except the last is consumed to its end |
| ExitNotifier.RecordAllPointwise | main.c:310-316 | a slot that no answer reaches is unchanged; a slot that some answers reach carries the status of the last of them and is marked exited |
| ExitNotifier.EveryHitMarked | main.c:308-316 | when several children exit before the handler runs, each slot one of the answers reaches is marked exited |
| ExitNotifier.UnknownPidsChangeNothing | main.c:310-316 | answers whose pids are not in the table below the mark change nothing |
| ExitNotifier.NoChildReadyHitsNothing | main.c:309-316 | in a table that keeps its invariant, the answer 0 ("no child ready") changes nothing |
| ExitNotifier.NoChildrenMarksFirstHole | main.c:309-316 | the answer -1 marks the lowest hole below the mark exited |
| Reaper.Reap | main.c:426-476 | the sweep keeps the table well formed and lowers the mark by at most one; `ReapSlots`, `ReapLast` and `ReapLive` give its exact result |
| Reaper.ReapSlot | main.c:438-470 | the sweep touches only an exited slot that is not a hole, and then only by giving it the new child with `exited` clear or by turning it into a hole |
| Reaper.VisitSlot | main.c:438-473 | one iteration keeps the table well formed; it either keeps the mark or lowers it by one at the tail; it never clears `live` |
| Reaper.ReapFrom | main.c:429-474 | the sweep keeps the table well formed, lowers the mark at most once and by one, and never clears `live` |
| Reaper.VisitSlotKeepsValid | main.c:438-473 | one iteration keeps the table invariant |
| Reaper.ReapFromKeepsValid | main.c:429-474 | the sweep keeps the table invariant |
| Reaper.VisitSlotPointwise | main.c:438-473 | one iteration either lowers the mark for a retired tail, or replaces slot `i` by `ReapSlot` of it and adds that slot's `KeepsLive` to the flag |
| Reaper.ReapFromSlots | main.c:429-474 | the sweep from `i` on turns each slot from `i` up to the mark into `ReapSlot` of itself and changes nothing else |
| Reaper.ReapFromLast | main.c:465-466 | the sweep from `i` on lowers the mark exactly when the tail retires |
| Reaper.ReapFromLive | main.c:462-473 | the sweep from `i` on reports live exactly when the flag was already set or some slot from `i` on keeps it live |
| Reaper.ReapSlots | main.c:438-470 | the whole sweep, slot by slot: a hole or a running slot is unchanged; an exited slot that qualifies gets the new child, or stays exited if fork() fails; a retired non-tail slot becomes a hole; a retired tail keeps its pid |
| Reaper.ReapLast | main.c:465-466 | the whole sweep lowers the mark by one exactly when the tail retires |
| Reaper.ReapLive | main.c:462-473 | the sweep returns live exactly when a respawn succeeded, or when some occupied slot that has not exited is exiting or not detached |
| Reaper.RespawnInPlace | main.c:452-463 | an exited slot that qualifies for respawn gets the new child at the same index, with all other fields kept and `live` set; if fork() fails the slot is left as it was, still exited; it is never retired |
| Reaper.ShutdownSuppressesRespawn | main.c:452-470 | once `terminate` or `quit` is set, no slot gets a new pid and none changes `exited`; an exited slot below the tail becomes a hole; the mark drops exactly when the tail has exited |
| Reaper.ReapFromNeverForks | main.c:452-458 | during shutdown, the sweep from `i` on does not depend on what fork() would return |
| Reaper.ShutdownNeverForks | main.c:452-458 | during shutdown, the whole sweep cannot tell one set of fork outcomes from another |
| Reaper.ReapFromSettled | main.c:438-474 | a sweep over slots that are all holes or still running leaves the table as it is |
| Reaper.ShutdownSweepIdempotent | main.c:452-470 | during shutdown, a second sweep leaves the table of the first sweep unchanged |
| Reaper.TailShrinksOnce | main.c:465-470 | a retired tail lowers the mark by exactly one even when the new tail is a hole, and the retired slot keeps its pid |
| Reaper.DrainCompletes | main.c:429-475 | during shutdown, a table whose occupied slots have all exited is retired by one sweep: nothing is live, the mark drops by one and every slot below it is a hole |
| Supervisor.Master.constructor | main.c:58-74 | the globals start zeroed with all three flags clear |
| Supervisor.Master.IndexOf | main.c:351-355 | the search loop returns the lowest index below `cpx_last_process` whose slot carries the pid, or `cpx_last_process` if there is none |
| Supervisor.Master.Spawn | main.c:345-424 | `spawn_process` on the array leaves the table and returns the pid that `SpawnSpec` gives, and keeps the table invariant |
| Supervisor.Master.SpawnSteps | main.c:349-421 | the statements of `spawn_process`, run on the array, leave the table and return the pid that `SpawnSpec` gives |
| Supervisor.Master.StartWorkers | main.c:496-504 | the start-up loop leaves the table `StartAll` gives and keeps the table invariant |
| Supervisor.Master.StartOne | main.c:501-503 | one pass of the start-up loop extends `StartAll` by one worker and keeps the table invariant |
| Supervisor.Master.RecordOne | main.c:310-316 | one pass of the matching loop leaves the table `RecordExit` gives |
| Supervisor.Master.RecordStep | main.c:310-316 | one pass of the do-while extends the recorded prefix of the answers by one |
| Supervisor.Master.RecordAnswers | main.c:308-317 | the do-while leaves the table `RecordExits` gives and consumes exactly the answers `Consumed` names |
| Supervisor.Master.SigChild | main.c:301-317 | the handler sets `cpx_reap`, records the exits as `RecordExits` does, and keeps the table invariant |
| Supervisor.Master.VisitOne | main.c:438-473 | one iteration of the sweep on the array makes the table and the flag that `VisitSlot` gives |
| Supervisor.Master.SweepStep | main.c:429-474 | after one iteration, what the sweep still has to do comes to the same final result |
| Supervisor.Master.ReapChildren | main.c:426-476 | `cpx_reap_children` leaves the table and returns the flag that `Reap` gives, and keeps the table invariant |
| Supervisor.Master.Step | main.c:533-538 | a loop turn with `cpx_reap` set clears it and sweeps as `Reap` does; with the flag clear the table is unchanged |
| Options.KillOption | main.c:146-168 | an empty argument gives usage; any other result is the action of a keyword the argument abbreviates; `KillOptionFirstMatch` says which one |
| Options.KillOptionFirstMatch | main.c:146-168 | the result is usage exactly for an empty argument or one that abbreviates no keyword; otherwise it is the action of the first keyword, in the order reload, rotate, shutdown, kill, parse, that the argument abbreviates |
| Options.AbbreviationExamples | main.c:146-168 | "r" and "re" select reload, "ro" selects rotate; each first letter selects its keyword; "", "reloads" and "x" give usage |
| Scenarios.ExitsOf | main.c:308-317 | the answers for `n` exited children contain a terminator, and the handler consumes all of them |
| Scenarios.ExitReachesOwnSlot | main.c:310-315 | right after start-up, each child's exit reaches the child's own slot |
| Scenarios.Drained | main.c:301-317 | the table after start-up and all exits is well formed |
| Scenarios.AllExited | main.c:301-317 | after start-up and all `n` exits, every worker slot keeps its pid and is marked exited |
| Scenarios.DrainOutcome | main.c:429-475 | a quitting sweep over that table reports nothing live, lowers the mark to n-1 and leaves holes below it |
| Scenarios.OneExitOf | main.c:308-317 | the answers for a single exit contain a terminator, and the handler consumes all of them |
| Scenarios.OneExit | main.c:301-317 | the table after start-up and one exit is well formed |
| Scenarios.OneExitMarksOnly | main.c:310-316 | the exit of worker `i` marks its slot and leaves every other worker slot as start-up made it |
| Scenarios.RespawnOutcome | main.c:452-463 | a running sweep after that exit puts the new child into slot `i` as a fresh worker, keeps the mark and reports live |
| Scenarios.StartMaster | main.c:496-504 | a new `Master` after start-up holds the table `StartAll` gives from the zeroed table, keeps the invariant and has every flag clear |
| Scenarios.StartThenAllExit | main.c:301-317 | that master, after its handler sees all `n` workers exit, holds the table `Drained` and has `cpx_reap` set |
| Scenarios.QuitAndSweep | main.c:426-476 | setting `cpx_quit` and sweeping on the master gives the result of a shutdown `Reap` |
| Scenarios.GracefulDrain | main.c:426-476 | on the master, start-up, all exits, a quit and one sweep report nothing live and leave the mark at `n - 1` |
| Scenarios.StartThenOneExits | main.c:301-317 | a started master whose handler sees worker `i` exit holds the table `OneExit` |
| Scenarios.RespawnAfterExit | main.c:533-538 | on the master, one loop turn after worker `i` exits puts the new child into slot `i` as a fresh worker and keeps the mark |

## Left out

- `linux/cpx_atomic.h`: compiler builtins for atomics and barriers. The model is sequential.
- The real fork() and the child's side of `spawn_process` (main.c:369-372); `cpx_worker_process_cycle` (main.c:484-494): this is process creation, time, randomness and sleeping. Fork outcomes are inputs.
- Signal installation, `sigsuspend`, the handler's re-arm with `signal()` and asynchronous delivery (main.c:320-343, 531). The handler is an ordinary method called between loop turns.
- PID-file handling and the `kill(pid, 0)` probe (main.c:237-297), `prctl`/rlimit setup (main.c:177-235), and `sysconf` (main.c:478-482). These are operating-system calls; the CPU count is a parameter.
- Process-title and argv handling (main.c:79-97): raw memory layout and logging.
- The nested loop at main.c:442-450: it has no effect. All `printf`/`fprintf` output is also left out.
- The getopt plumbing around `-k`. Its option string "hvNc" (main.c:131) contains no `k`, so the branch is modelled on its own, as a function of its argument.
- `cpx_process_slot` (main.c:59, 362): the parent only writes it.
- Entry points, arguments and names: the three addresses a slot stores are opaque integer handles (`Entry`). The name string "worker process" of the start-up loop is the handle `WorkerName` and is not modelled as text.
- Supervisor.Master.Spawn: requires `policy < 128`. For a larger index the C code would write outside the array; its only in-place caller passes an index below the mark.
- Supervisor.Master.SigChild: requires the answer stream to contain a terminator. With WNOHANG, `waitpid` eventually answers 0 or -1; the model takes that as given instead of modelling the kernel.
- Options.Abbreviates: treats the argument as a string without NUL characters, as every C string is. This makes `strncmp(arg, keyword, strlen(arg)) == 0` just "is a prefix of".
- Options.KillOption: the `cpx_usage()` exit and the writes to `cpx_opt_send_signal` and `cpx_opt_parse_cfg_only` are represented by the returned `KillAction`.
