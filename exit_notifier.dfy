/** Exit recording: the pid-matching loop that the SIGCHLD handler runs
    over every `waitpid` result (main.c:301-317). */
module ExitNotifier {
  import opened Table

  /** One answer of `waitpid(-1, &status, WNOHANG)`: a reaped child's pid
      and status, 0 when no child is ready, -1 when there are no children.
      For a pid <= 0 the status stands for whatever the handler's local
      variable held; the handler writes it all the same. */
  datatype WaitResult = WaitResult(pid: int, status: int)

  /** The stream holds the answer that ends the drain loop. */
  predicate HasTerminator(ws: seq<WaitResult>) {
    exists k :: 0 <= k < |ws| && ws[k].pid <= 0
  }

  /** The answers the do-while of main.c:308-317 consumes: all of them up to
      and including the first whose pid is not positive. */
  function Consumed(ws: seq<WaitResult>): (cs: seq<WaitResult>)
    ensures cs <= ws
    ensures forall n :: 0 <= n < |cs| - 1 ==> cs[n].pid > 0
    ensures HasTerminator(ws) ==> |cs| > 0 && cs[|cs| - 1].pid <= 0
    ensures !HasTerminator(ws) ==> cs == ws
  {
    if ws == [] then []
    else if ws[0].pid <= 0 then [ws[0]]
    else
      TerminatorInTail(ws);
      [ws[0]] + Consumed(ws[1..])
  }

  /** A terminator that is not the first answer is one of the rest. */
  lemma TerminatorInTail(ws: seq<WaitResult>)
    requires ws != [] && ws[0].pid > 0
    ensures HasTerminator(ws) <==> HasTerminator(ws[1..])
  {
    if HasTerminator(ws) {
      var k :| 0 <= k < |ws| && ws[k].pid <= 0;
      assert ws[1..][k - 1].pid <= 0;
    }
    if HasTerminator(ws[1..]) {
      var k :| 0 <= k < |ws[1..]| && ws[1..][k].pid <= 0;
      assert ws[k + 1].pid <= 0;
    }
  }

  /** Whether answer `w` reaches slot `j`: the first slot below the
      high-water mark that carries its pid (main.c:310-315). */
  predicate Hits(p: Procs, w: WaitResult, j: int)
    requires p.WellFormed()
  {
    j < p.last && FirstWithPid(p.slots, p.last, w.pid) == j
  }

  /** A slot after its exit was recorded. */
  function Mark(s: Slot, status: int): Slot {
    s.(status := status, exited := true)
  }

  /** One pass of the inner `for` loop of main.c:310-316: the slot the
      answer reaches is marked with its status, and nothing else changes. */
  function RecordExit(p: Procs, w: WaitResult): (r: Procs)
    requires p.WellFormed()
    ensures r.WellFormed() && r.last == p.last
    ensures forall j :: 0 <= j < |p.slots| ==>
              r.slots[j] == if Hits(p, w, j) then Mark(p.slots[j], w.status) else p.slots[j]
  {
    var k := FirstWithPid(p.slots, p.last, w.pid);
    if k < p.last then p.(slots := p.slots[k := Mark(p.slots[k], w.status)]) else p
  }

  /** The table after the handler saw the answers `cs` in order. Only
      `status` and `exited` ever change, so pids, the high-water mark and
      the table invariant all survive. */
  function RecordAll(p: Procs, cs: seq<WaitResult>): (r: Procs)
    requires p.WellFormed()
    ensures r.WellFormed() && r.last == p.last
    ensures forall j :: 0 <= j < |p.slots| ==>
              r.slots[j] == p.slots[j].(status := r.slots[j].status, exited := r.slots[j].exited)
    decreases |cs|
  {
    if cs == [] then p
    else RecordExit(RecordAll(p, cs[..|cs| - 1]), cs[|cs| - 1])
  }

  /** Recording exits keeps the table invariant: no pid changes. */
  lemma RecordAllKeepsValid(p: Procs, cs: seq<WaitResult>)
    requires p.Valid()
    ensures RecordAll(p, cs).Valid()
  {
    var r := RecordAll(p, cs);
    forall j | 0 <= j < r.last
      ensures r.slots[j].pid == Hole || r.slots[j].pid > 0
    {
      assert r.slots[j].pid == p.slots[j].pid;
    }
  }

  /** The table after one run of the handler on the answer stream `ws`. */
  function RecordExits(p: Procs, ws: seq<WaitResult>): (r: Procs)
    requires p.WellFormed()
    ensures r.WellFormed() && r.last == p.last
  {
    RecordAll(p, Consumed(ws))
  }

  /** The index of the first answer that is not a pid. */
  lemma FirstTerminator(ws: seq<WaitResult>) returns (f: nat)
    requires HasTerminator(ws)
    ensures f < |ws| && ws[f].pid <= 0
    ensures forall n :: 0 <= n < f ==> ws[n].pid > 0
  {
    f := |Consumed(ws)| - 1;
    assert Consumed(ws)[f] == ws[f];
  }

  /** A handler run that stops at answer `f` consumes the first `f + 1`
      answers and records exactly those. */
  lemma RecordExitsUpTo(p: Procs, ws: seq<WaitResult>, f: nat)
    requires p.WellFormed() && f < |ws| && ws[f].pid <= 0
    requires forall n :: 0 <= n < f ==> ws[n].pid > 0
    ensures Consumed(ws) == ws[..f + 1]
    ensures RecordExits(p, ws) == RecordAll(p, ws[..f + 1])
  {
    var cs := Consumed(ws);
    assert |cs| > 0 && cs[|cs| - 1] == ws[|cs| - 1];
    assert |cs| == f + 1;
  }

  /** A stream whose only non-pid answer is its last one is consumed
      whole. */
  lemma ConsumedWholeStream(ws: seq<WaitResult>)
    requires ws != [] && ws[|ws| - 1].pid <= 0
    requires forall n :: 0 <= n < |ws| - 1 ==> ws[n].pid > 0
    ensures HasTerminator(ws) && Consumed(ws) == ws
  {
    assert ws[|ws| - 1].pid <= 0;
    var cs := Consumed(ws);
    assert cs[|cs| - 1] == ws[|cs| - 1];
  }

  /** Answer `n` is the last of `cs` that reaches slot `j`. */
  predicate LastHit(p: Procs, cs: seq<WaitResult>, j: int, n: int)
    requires p.WellFormed()
  {
    0 <= n < |cs| && Hits(p, cs[n], j) &&
    forall m :: n < m < |cs| ==> !Hits(p, cs[m], j)
  }

  /** Slot by slot: a slot no answer reaches is untouched, and a slot that
      some answers reach is marked exited with the status of the last one. */
  lemma {:induction false} RecordAllPointwise(p: Procs, cs: seq<WaitResult>)
    requires p.WellFormed()
    ensures forall j :: 0 <= j < |p.slots| && (forall n :: 0 <= n < |cs| ==> !Hits(p, cs[n], j)) ==>
              RecordAll(p, cs).slots[j] == p.slots[j]
    ensures forall j, n :: 0 <= j < |p.slots| && LastHit(p, cs, j, n) ==>
              RecordAll(p, cs).slots[j] == Mark(p.slots[j], cs[n].status)
    decreases |cs|
  {
    if cs != [] {
      var init, w := cs[..|cs| - 1], cs[|cs| - 1];
      RecordAllPointwise(p, init);
      var q := RecordAll(p, init);
      SearchReadsPidsOnly(q.slots, p.slots, p.last, w.pid);
      forall j, n | 0 <= j < |p.slots| && LastHit(p, cs, j, n)
        ensures RecordAll(p, cs).slots[j] == Mark(p.slots[j], cs[n].status)
      {
        if n < |cs| - 1 {
          assert cs[n] == init[n];
          assert LastHit(p, init, j, n);
        }
      }
      forall j | 0 <= j < |p.slots| && (forall n :: 0 <= n < |cs| ==> !Hits(p, cs[n], j))
        ensures RecordAll(p, cs).slots[j] == p.slots[j]
      {
        assert !Hits(p, cs[|cs| - 1], j);
        forall n | 0 <= n < |init| ensures !Hits(p, init[n], j) {
          assert init[n] == cs[n];
        }
      }
    }
  }

  /** Coalescing: however many children exited before the handler ran,
      every slot that one of the answers reaches ends up marked exited. */
  lemma {:induction false} EveryHitMarked(p: Procs, cs: seq<WaitResult>, n: int, j: int)
    requires p.WellFormed() && 0 <= n < |cs| && 0 <= j < |p.slots|
    requires Hits(p, cs[n], j)
    ensures RecordAll(p, cs).slots[j].exited
    decreases |cs|
  {
    var init, w := cs[..|cs| - 1], cs[|cs| - 1];
    var q := RecordAll(p, init);
    SearchReadsPidsOnly(q.slots, p.slots, p.last, w.pid);
    if n < |cs| - 1 {
      assert cs[n] == init[n];
      EveryHitMarked(p, init, n, j);
    }
  }

  /** Answers for pids the table does not hold below its high-water mark
      change nothing at all. */
  lemma UnknownPidsChangeNothing(p: Procs, cs: seq<WaitResult>)
    requires p.WellFormed()
    requires forall n :: 0 <= n < |cs| ==> FirstWithPid(p.slots, p.last, cs[n].pid) == p.last
    ensures RecordAll(p, cs) == p
  {
    RecordAllPointwise(p, cs);
    var r := RecordAll(p, cs);
    assert r.slots == p.slots by {
      forall j | 0 <= j < |p.slots| ensures r.slots[j] == p.slots[j] {
        assert forall n :: 0 <= n < |cs| ==> !Hits(p, cs[n], j);
      }
    }
  }

  /** In a table that keeps its invariant, the "no child ready" answer 0
      reaches no slot. */
  lemma NoChildReadyHitsNothing(p: Procs, status: int)
    requires p.Valid()
    ensures RecordExit(p, WaitResult(0, status)) == p
  {
  }

  /** The "no children" answer -1 goes through the same matching loop, so it
      marks the lowest hole below the high-water mark exited. */
  lemma NoChildrenMarksFirstHole(p: Procs, status: int, h: int)
    requires p.WellFormed() && 0 <= h < p.last && p.slots[h].pid == Hole
    requires forall j :: 0 <= j < h ==> p.slots[j].pid != Hole
    ensures RecordExit(p, WaitResult(-1, status)).slots[h] == Mark(p.slots[h], status)
  {
    var k := FirstWithPid(p.slots, p.last, -1);
    assert k == h by {
      assert k <= h;
    }
  }
}
