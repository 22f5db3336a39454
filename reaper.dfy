/** `cpx_reap_children` as a function of the table (main.c:426-476): the
    sweep that respawns exited workers in place or retires their slots, and
    the `live` flag it computes. */
module Reaper {
  import opened Table
  import opened Spawner

  /** The table after the sweep and the value the sweep returns. */
  datatype Reaped = Reaped(procs: Procs, live: bool)

  /** The respawn test of main.c:452-455; `stop` is `cpx_terminate || cpx_quit`. */
  predicate RespawnWanted(s: Slot, stop: bool) {
    s.respawn && !s.exiting && !stop
  }

  /** One iteration of the loop of main.c:429-474 at index `i`, with `live`
      the flag so far; `fork` is what fork() returns if the slot is
      respawned. */
  function VisitSlot(p: Procs, i: int, stop: bool, fork: Fork, live: bool): (r: Reaped)
    requires p.WellFormed() && 0 <= i < p.last
    ensures r.procs.WellFormed()
    ensures r.procs.last == p.last || (i == p.last - 1 && r.procs.last == i)
    ensures live ==> r.live
  {
    var s := p.slots[i];
    if s.pid == Hole then Reaped(p, live)
    else if s.exited then
      if RespawnWanted(s, stop) then
        var sp := SpawnSpec(p, s.entry, i, fork);
        if sp.pid == -1 then Reaped(p, live)
        else Reaped(sp.procs, true)
      else if i == p.last - 1 then Reaped(p.(last := p.last - 1), live)
      else Reaped(p.(slots := p.slots[i := s.(pid := Hole)]), live)
    else Reaped(p, live || s.exiting || !s.detached)
  }

  /** The sweep from index `i` on. `forks[i]` is what fork() returns if
      slot `i` is respawned; each slot is tried at most once per sweep. */
  function ReapFrom(p: Procs, i: int, stop: bool, forks: seq<Fork>, live: bool): (r: Reaped)
    requires p.WellFormed() && 0 <= i && |forks| == MaxProcesses
    ensures r.procs.WellFormed()
    // the high-water mark shrinks at most once, by one
    ensures r.procs.last == p.last || (i < p.last && r.procs.last == p.last - 1)
    ensures live ==> r.live
    decreases MaxProcesses - i
  {
    if i >= p.last then Reaped(p, live)
    else
      var v := VisitSlot(p, i, stop, forks[i], live);
      ReapFrom(v.procs, i + 1, stop, forks, v.live)
  }

  /** A visit keeps the table invariant. */
  lemma VisitSlotKeepsValid(p: Procs, i: int, stop: bool, fork: Fork, live: bool)
    requires p.Valid() && 0 <= i < p.last
    ensures VisitSlot(p, i, stop, fork, live).procs.Valid()
  {
    var s := p.slots[i];
    if s.pid != Hole && s.exited && RespawnWanted(s, stop) {
      SpawnKeepsValid(p, s.entry, i, fork);
    }
  }

  /** So does the sweep: every slot below the high-water mark stays a hole
      or a live pid. */
  lemma {:induction false} ReapFromKeepsValid(p: Procs, i: int, stop: bool, forks: seq<Fork>, live: bool)
    requires p.Valid() && 0 <= i && |forks| == MaxProcesses
    ensures ReapFrom(p, i, stop, forks, live).procs.Valid()
    decreases MaxProcesses - i
  {
    if i < p.last {
      var v := VisitSlot(p, i, stop, forks[i], live);
      VisitSlotKeepsValid(p, i, stop, forks[i], live);
      ReapFromKeepsValid(v.procs, i + 1, stop, forks, v.live);
    }
  }

  /** One call of `cpx_reap_children()`. */
  function Reap(p: Procs, stop: bool, forks: seq<Fork>): (r: Reaped)
    requires p.WellFormed() && |forks| == MaxProcesses
    ensures r.procs.WellFormed() && (r.procs.last == p.last || r.procs.last == p.last - 1)
  {
    ReapFrom(p, 0, stop, forks, false)
  }

  /** What the sweep makes of one slot, given whether it is the tail: an
      exited slot that wants respawning gets the new child if fork()
      succeeds and stays exited if not; any other exited slot is retired,
      the tail by the shrink of the high-water mark (its pid stays), the
      others by becoming holes. */
  function ReapSlot(s: Slot, tail: bool, stop: bool, fork: Fork): (r: Slot)
    // only an exited slot that is not a hole is touched, and then only
    // by a new pid with `exited` cleared, or by becoming a hole
    ensures r != s ==> s.pid != Hole && s.exited
    ensures r == s || r == s.(pid := Hole) || (fork.Forked? && r == s.(pid := fork.child, exited := false))
  {
    if s.pid == Hole || !s.exited then s
    else if RespawnWanted(s, stop) then
      match fork
      case ForkFailed => s
      case Forked(child) => s.(pid := child, exited := false)
    else if tail then s
    else s.(pid := Hole)
  }

  /** The slot is retired by the sweep. */
  predicate Retires(s: Slot, stop: bool) {
    s.pid != Hole && s.exited && !RespawnWanted(s, stop)
  }

  /** The slot makes the sweep report a live process: it was respawned, or
      it is still running and either exiting or not detached. */
  predicate KeepsLive(s: Slot, stop: bool, fork: Fork) {
    s.pid != Hole &&
    if s.exited then RespawnWanted(s, stop) && fork.Forked? else s.exiting || !s.detached
  }

  /** One iteration, slot-wise: retiring the tail only lowers the mark;
      anything else leaves slot `i` as `ReapSlot` makes it and adds the
      slot's `KeepsLive` to the flag. */
  lemma VisitSlotPointwise(p: Procs, i: int, stop: bool, fork: Fork, live: bool)
    requires p.WellFormed() && 0 <= i < p.last
    ensures var s := p.slots[i];
            VisitSlot(p, i, stop, fork, live) ==
              if Retires(s, stop) && i == p.last - 1 then Reaped(p.(last := p.last - 1), live)
              else Reaped(p.(slots := p.slots[i := ReapSlot(s, i == p.last - 1, stop, fork)]),
                          live || KeepsLive(s, stop, fork))
  {
    var s := p.slots[i];
    var s' := ReapSlot(s, i == p.last - 1, stop, fork);
    if s.pid == Hole || !s.exited {
      assert s' == s && p.slots[i := s] == p.slots;
    } else if RespawnWanted(s, stop) && fork.ForkFailed? {
      assert s' == s && p.slots[i := s] == p.slots;
    }
  }

  /** The sweep from `i` on, slot by slot: every slot from `i` up to the
      high-water mark becomes `ReapSlot` of itself and nothing else changes. */
  lemma {:induction false} ReapFromSlots(p: Procs, i: int, stop: bool, forks: seq<Fork>, live: bool)
    requires p.WellFormed() && 0 <= i <= p.last && |forks| == MaxProcesses
    ensures forall j :: 0 <= j < |p.slots| ==>
              ReapFrom(p, i, stop, forks, live).procs.slots[j] ==
              if i <= j < p.last then ReapSlot(p.slots[j], j == p.last - 1, stop, forks[j]) else p.slots[j]
    decreases p.last - i
  {
    if i < p.last {
      var s := p.slots[i];
      var v := VisitSlot(p, i, stop, forks[i], live);
      VisitSlotPointwise(p, i, stop, forks[i], live);
      if Retires(s, stop) && i == p.last - 1 {
        assert ReapSlot(s, true, stop, forks[i]) == s;
      } else {
        ReapFromSlots(v.procs, i + 1, stop, forks, v.live);
      }
    }
  }

  /** The sweep from `i` on lowers the high-water mark exactly when it
      retires the tail slot. */
  lemma {:induction false} ReapFromLast(p: Procs, i: int, stop: bool, forks: seq<Fork>, live: bool)
    requires p.WellFormed() && 0 <= i <= p.last && |forks| == MaxProcesses
    ensures ReapFrom(p, i, stop, forks, live).procs.last ==
              if i < p.last && Retires(p.slots[p.last - 1], stop) then p.last - 1 else p.last
    decreases p.last - i
  {
    if i < p.last {
      var s := p.slots[i];
      var v := VisitSlot(p, i, stop, forks[i], live);
      VisitSlotPointwise(p, i, stop, forks[i], live);
      if !(Retires(s, stop) && i == p.last - 1) {
        ReapFromLast(v.procs, i + 1, stop, forks, v.live);
      }
    }
  }

  /** The sweep from `i` on reports live exactly when the flag was already
      set or some slot from `i` up to the high-water mark keeps it live. */
  lemma {:induction false} ReapFromLive(p: Procs, i: int, stop: bool, forks: seq<Fork>, live: bool)
    requires p.WellFormed() && 0 <= i <= p.last && |forks| == MaxProcesses
    ensures ReapFrom(p, i, stop, forks, live).live <==>
              live || exists j :: i <= j < p.last && KeepsLive(p.slots[j], stop, forks[j])
    decreases p.last - i
  {
    if i < p.last {
      var s := p.slots[i];
      var v := VisitSlot(p, i, stop, forks[i], live);
      VisitSlotPointwise(p, i, stop, forks[i], live);
      if !(Retires(s, stop) && i == p.last - 1) {
        var q := v.procs;
        ReapFromLive(q, i + 1, stop, forks, v.live);
        assert (exists j :: i + 1 <= j < q.last && KeepsLive(q.slots[j], stop, forks[j])) <==>
               (exists j :: i + 1 <= j < p.last && KeepsLive(p.slots[j], stop, forks[j])) by {
          assert forall j :: i + 1 <= j < p.last ==> q.slots[j] == p.slots[j];
        }
      }
    }
  }

  /** The whole sweep, slot by slot: every slot below the high-water mark
      becomes `ReapSlot` of itself and the rest are untouched. */
  lemma ReapSlots(p: Procs, stop: bool, forks: seq<Fork>)
    requires p.WellFormed() && |forks| == MaxProcesses
    ensures forall j :: 0 <= j < |p.slots| ==>
              Reap(p, stop, forks).procs.slots[j] ==
              if j < p.last then ReapSlot(p.slots[j], j == p.last - 1, stop, forks[j]) else p.slots[j]
  {
    ReapFromSlots(p, 0, stop, forks, false);
  }

  /** The whole sweep lowers the high-water mark by one exactly when it
      retires the tail slot. */
  lemma ReapLast(p: Procs, stop: bool, forks: seq<Fork>)
    requires p.WellFormed() && |forks| == MaxProcesses
    ensures Reap(p, stop, forks).procs.last ==
              if p.last > 0 && Retires(p.slots[p.last - 1], stop) then p.last - 1 else p.last
  {
    ReapFromLast(p, 0, stop, forks, false);
  }

  /** The whole sweep reports live exactly when some slot below the
      high-water mark keeps it live. */
  lemma ReapLive(p: Procs, stop: bool, forks: seq<Fork>)
    requires p.WellFormed() && |forks| == MaxProcesses
    ensures Reap(p, stop, forks).live <==> exists j :: 0 <= j < p.last && KeepsLive(p.slots[j], stop, forks[j])
  {
    ReapFromLive(p, 0, stop, forks, false);
  }

  /** Respawn in place: an exited slot that wants respawning gets the new
      child at the same index, keeps everything but `pid` and `exited`, is
      not retired, and makes the sweep report live. If fork() fails, the
      slot is left exactly as it was, still exited, for the next sweep. */
  lemma RespawnInPlace(p: Procs, stop: bool, forks: seq<Fork>, i: int)
    requires p.WellFormed() && |forks| == MaxProcesses && 0 <= i < p.last
    requires p.slots[i].pid != Hole && p.slots[i].exited && RespawnWanted(p.slots[i], stop)
    ensures var r := Reap(p, stop, forks);
            i < r.procs.last &&
            (forks[i].Forked? ==>
               r.procs.slots[i] == p.slots[i].(pid := forks[i].child, exited := false) && r.live) &&
            (forks[i].ForkFailed? ==> r.procs.slots[i] == p.slots[i])
  {
    ReapSlots(p, stop, forks);
    ReapLast(p, stop, forks);
    ReapLive(p, stop, forks);
    assert KeepsLive(p.slots[i], stop, forks[i]) <== forks[i].Forked?;
  }

  /** Shutdown suppresses respawn: once `cpx_terminate` or `cpx_quit` is
      set, no slot gets a new pid, none changes its `exited` bit, and every
      exited slot is retired: the ones below the tail become holes and an
      exited tail shrinks the high-water mark. */
  lemma ShutdownSuppressesRespawn(p: Procs, forks: seq<Fork>)
    requires p.WellFormed() && |forks| == MaxProcesses
    ensures var r := Reap(p, true, forks);
            (forall j :: 0 <= j < |p.slots| ==>
               r.procs.slots[j] == p.slots[j] || r.procs.slots[j] == p.slots[j].(pid := Hole)) &&
            (forall j :: 0 <= j < p.last - 1 && p.slots[j].exited ==> r.procs.slots[j].pid == Hole) &&
            (r.procs.last == p.last - 1 <==> p.last > 0 && p.slots[p.last - 1].pid != Hole && p.slots[p.last - 1].exited)
  {
    ReapSlots(p, true, forks);
    ReapLast(p, true, forks);
  }

  /** During shutdown the sweep from `i` on never consults fork(). */
  lemma {:induction false} ReapFromNeverForks(p: Procs, i: int, forks: seq<Fork>, forks': seq<Fork>, live: bool)
    requires p.WellFormed() && 0 <= i && |forks| == MaxProcesses && |forks'| == MaxProcesses
    ensures ReapFrom(p, i, true, forks, live) == ReapFrom(p, i, true, forks', live)
    decreases MaxProcesses - i
  {
    if i < p.last {
      var v := VisitSlot(p, i, true, forks[i], live);
      assert v == VisitSlot(p, i, true, forks'[i], live);
      ReapFromNeverForks(v.procs, i + 1, forks, forks', v.live);
    }
  }

  /** During shutdown fork() is never consulted: the sweep does the same
      whatever fork() would have returned. */
  lemma ShutdownNeverForks(p: Procs, forks: seq<Fork>, forks': seq<Fork>)
    requires p.WellFormed() && |forks| == MaxProcesses && |forks'| == MaxProcesses
    ensures Reap(p, true, forks) == Reap(p, true, forks')
  {
    ReapFromNeverForks(p, 0, forks, forks', false);
  }

  /** A sweep from `i` on over slots that are all holes or still running
      leaves the table as it is. */
  lemma {:induction false} ReapFromSettled(p: Procs, i: int, stop: bool, forks: seq<Fork>, live: bool)
    requires p.WellFormed() && 0 <= i && |forks| == MaxProcesses
    requires forall j :: i <= j < p.last ==> p.slots[j].pid == Hole || !p.slots[j].exited
    ensures ReapFrom(p, i, stop, forks, live).procs == p
    decreases MaxProcesses - i
  {
    if i < p.last {
      var v := VisitSlot(p, i, stop, forks[i], live);
      assert v.procs == p;
      ReapFromSettled(p, i + 1, stop, forks, v.live);
    }
  }

  /** A second sweep during shutdown finds nothing to do: the first one
      already retired every exited slot it could see. */
  lemma ShutdownSweepIdempotent(p: Procs, forks: seq<Fork>)
    requires p.WellFormed() && |forks| == MaxProcesses
    ensures var r := Reap(p, true, forks);
            Reap(r.procs, true, forks).procs == r.procs
  {
    var r := Reap(p, true, forks);
    ReapSlots(p, true, forks);
    ReapLast(p, true, forks);
    forall j | 0 <= j < r.procs.last
      ensures r.procs.slots[j].pid == Hole || !r.procs.slots[j].exited
    {
      assert j < p.last;
    }
    ReapFromSettled(r.procs, 0, true, forks, false);
  }

  /** The tail shrinks by exactly one and no further: when the slot below
      a retired tail is a hole, the new tail is that hole. The retired tail
      slot itself keeps its pid. */
  lemma TailShrinksOnce(p: Procs, stop: bool, forks: seq<Fork>)
    requires p.WellFormed() && |forks| == MaxProcesses && p.last >= 2
    requires Retires(p.slots[p.last - 1], stop) && p.slots[p.last - 2].pid == Hole
    ensures var r := Reap(p, stop, forks);
            r.procs.last == p.last - 1 &&
            r.procs.slots[r.procs.last - 1].pid == Hole &&
            r.procs.slots[p.last - 1] == p.slots[p.last - 1]
  {
    ReapSlots(p, stop, forks);
    ReapLast(p, stop, forks);
  }

  /** Graceful drain: during shutdown, a table whose every slot below the
      high-water mark has exited is emptied by one sweep, which reports
      nothing live; all slots below the tail become holes. */
  lemma DrainCompletes(p: Procs, forks: seq<Fork>)
    requires p.WellFormed() && |forks| == MaxProcesses && p.last > 0
    requires forall j :: 0 <= j < p.last ==> p.slots[j].pid != Hole && p.slots[j].exited
    ensures var r := Reap(p, true, forks);
            !r.live && r.procs.last == p.last - 1 &&
            forall j :: 0 <= j < r.procs.last ==> r.procs.slots[j].pid == Hole
  {
    ReapSlots(p, true, forks);
    ReapLast(p, true, forks);
    ReapLive(p, true, forks);
  }
}
