// gateway/handlers.go, fetchMultipart: one goroutine per part, at most eight
// past the semaphore, joined by a wait group. A state machine over the steps
// of the spawning loop and of the goroutines, in any order.
module Multipart {
  import opened Evmfs
  import opened Lookup
  import opened Manifests

  const CONCURRENCY: nat := 8

  datatype Spawner =
    | Adding        // before wg.Add(1) for part `next`, or leaving the loop
    | Acquiring     // before sem <- struct{}{}
    | Spawning      // before the go statement
    | Waiting       // in wg.Wait
    | Done

  datatype Worker =
    | Unborn
    | Fetching      // holds the semaphore
    | Written       // result stored, still holds the semaphore
    | Released      // before wg.Done
    | Finished

  datatype State = State(next: nat, spawner: Spawner, sem: nat, wg: nat,
                         workers: seq<Worker>, slots: seq<Option<Fetch>>)

  /** Who moves: the spawning loop, or goroutine i, whose fetch, if it happens
      now, ends with `answer`. */
  datatype Event = Loop | Goroutine(i: nat, answer: Fetch)

  function Init(parts: nat): State {
    State(0, Adding, 0, 0, seq(parts, _ => Unborn), seq(parts, _ => None))
  }

  predicate Enabled(s: State, e: Event) {
    match e
    case Loop =>
      (match s.spawner
       case Acquiring => s.sem < CONCURRENCY
       case Waiting => s.wg == 0
       case Done => false
       case _ => true)
    case Goroutine(i, _) => i < |s.workers| && s.workers[i] != Unborn && s.workers[i] != Finished
  }

  function LoopStep(s: State): State {
    match s.spawner
    case Adding => if s.next < |s.workers| then s.(wg := s.wg + 1, spawner := Acquiring) else s.(spawner := Waiting)
    case Acquiring => s.(sem := s.sem + 1, spawner := Spawning)
    case Spawning =>
      if s.next < |s.workers|
      then s.(workers := s.workers[s.next := Fetching], next := s.next + 1, spawner := Adding)
      else s
    case Waiting => s.(spawner := Done)
    case Done => s
  }

  function WorkerStep(s: State, i: nat, answer: Fetch): State
    requires i < |s.workers|
  {
    match s.workers[i]
    case Fetching =>
      if i < |s.slots| then s.(workers := s.workers[i := Written], slots := s.slots[i := Some(answer)]) else s
    case Written => s.(workers := s.workers[i := Released], sem := if s.sem > 0 then s.sem - 1 else 0)
    case Released => s.(workers := s.workers[i := Finished], wg := if s.wg > 0 then s.wg - 1 else 0)
    case _ => s
  }

  function Step(s: State, e: Event): State
    requires Enabled(s, e)
  {
    match e
    case Loop => LoopStep(s)
    case Goroutine(i, answer) => WorkerStep(s, i, answer)
  }

  /** An interleaving; whoever is blocked stays where it is. */
  function Exec(parts: nat, schedule: seq<Event>): State {
    if schedule == [] then Init(parts)
    else
      var s, e := Exec(parts, schedule[..|schedule| - 1]), schedule[|schedule| - 1];
      if Enabled(s, e) then Step(s, e) else s
  }

  // ---------- Counting goroutines ----------

  function Holds(w: Worker): nat {
    if w == Fetching || w == Written then 1 else 0
  }

  function Pending(w: Worker): nat {
    if w == Unborn || w == Finished then 0 else 1
  }

  function Holders(ws: seq<Worker>): nat {
    if ws == [] then 0 else Holders(ws[..|ws| - 1]) + Holds(ws[|ws| - 1])
  }

  function Pendings(ws: seq<Worker>): nat {
    if ws == [] then 0 else Pendings(ws[..|ws| - 1]) + Pending(ws[|ws| - 1])
  }

  lemma {:induction false} CountsAfterUpdate(ws: seq<Worker>, i: nat, w: Worker)
    requires i < |ws|
    ensures Holders(ws[i := w]) == Holders(ws) - Holds(ws[i]) + Holds(w)
    ensures Pendings(ws[i := w]) == Pendings(ws) - Pending(ws[i]) + Pending(w)
  {
    var n := |ws| - 1;
    if i == n {
      assert ws[i := w][..n] == ws[..n];
    } else {
      assert ws[i := w][..n] == ws[..n][i := w];
      CountsAfterUpdate(ws[..n], i, w);
    }
  }

  lemma {:induction false} CountsAtLeast(ws: seq<Worker>, i: nat)
    requires i < |ws|
    ensures Holders(ws) >= Holds(ws[i]) && Pendings(ws) >= Pending(ws[i])
  {
    if i < |ws| - 1 {
      CountsAtLeast(ws[..|ws| - 1], i);
    }
  }

  lemma {:induction false} NobodyCounts(ws: seq<Worker>)
    requires forall i :: 0 <= i < |ws| ==> ws[i] == Unborn
    ensures Holders(ws) == 0 && Pendings(ws) == 0
  {
    if ws != [] {
      NobodyCounts(ws[..|ws| - 1]);
    }
  }

  // ---------- The invariant ----------

  /** The first `next` goroutines exist; those that have stored have a result. */
  ghost predicate Shape(s: State, parts: nat) {
    && |s.workers| == |s.slots| == parts && s.next <= parts
    && (forall i :: 0 <= i < parts ==> (s.workers[i] == Unborn <==> i >= s.next))
    && (forall i :: 0 <= i < parts ==> (s.slots[i].None? <==> s.workers[i] == Unborn || s.workers[i] == Fetching))
  }

  /** The semaphore and the wait group count what they should. */
  ghost predicate Counters(s: State, parts: nat) {
    && s.sem == Holders(s.workers) + (if s.spawner == Spawning then 1 else 0)
    && s.sem <= CONCURRENCY
    && s.wg == Pendings(s.workers) + (if s.spawner == Acquiring || s.spawner == Spawning then 1 else 0)
    && (s.spawner == Acquiring || s.spawner == Spawning ==> s.next < parts)
    && (s.spawner == Waiting || s.spawner == Done ==> s.next == parts)
    && (s.spawner == Done ==> s.wg == 0)
  }

  ghost predicate Inv(s: State, parts: nat) {
    Shape(s, parts) && Counters(s, parts)
  }

  lemma {:induction false} LoopKeepsInv(s: State, parts: nat)
    requires Inv(s, parts) && Enabled(s, Loop)
    ensures Inv(LoopStep(s), parts)
  {
    if s.spawner == Spawning {
      CountsAfterUpdate(s.workers, s.next, Fetching);
    }
  }

  lemma {:induction false} WorkerKeepsShape(s: State, parts: nat, i: nat, answer: Fetch)
    requires Shape(s, parts) && Enabled(s, Goroutine(i, answer))
    ensures Shape(WorkerStep(s, i, answer), parts)
  {
  }

  lemma {:induction false} WorkerKeepsCounters(s: State, parts: nat, i: nat, answer: Fetch)
    requires Shape(s, parts) && Counters(s, parts) && Enabled(s, Goroutine(i, answer))
    ensures Counters(WorkerStep(s, i, answer), parts)
  {
    CountsAtLeast(s.workers, i);
    match s.workers[i]
    case Fetching => CountsAfterUpdate(s.workers, i, Written);
    case Written => CountsAfterUpdate(s.workers, i, Released);
    case Released => CountsAfterUpdate(s.workers, i, Finished);
  }

  lemma {:induction false} Reachable(parts: nat, schedule: seq<Event>)
    ensures Inv(Exec(parts, schedule), parts)
  {
    if schedule == [] {
      NobodyCounts(Init(parts).workers);
    } else {
      var s, e := Exec(parts, schedule[..|schedule| - 1]), schedule[|schedule| - 1];
      Reachable(parts, schedule[..|schedule| - 1]);
      if Enabled(s, e) {
        match e
        case Loop => LoopKeepsInv(s, parts);
        case Goroutine(i, answer) =>
          WorkerKeepsShape(s, parts, i, answer);
          WorkerKeepsCounters(s, parts, i, answer);
      }
    }
  }

  // ---------- What fetchMultipart promises ----------

  /** Never more than eight fetches at once. */
  lemma {:induction false} AtMostEight(parts: nat, schedule: seq<Event>)
    ensures Holders(Exec(parts, schedule).workers) <= CONCURRENCY == 8
  {
    Reachable(parts, schedule);
  }

  /** How many goroutines hold the semaphore, counted as a set. */
  lemma {:induction false} HoldersExactly(ws: seq<Worker>)
    ensures Holders(ws) == |set i | 0 <= i < |ws| && (ws[i] == Fetching || ws[i] == Written)|
  {
    if ws != [] {
      var n := |ws| - 1;
      HoldersExactly(ws[..n]);
      var all := set i | 0 <= i < |ws| && (ws[i] == Fetching || ws[i] == Written);
      var init := set i | 0 <= i < n && (ws[..n][i] == Fetching || ws[..n][i] == Written);
      assert all == if Holds(ws[n]) == 1 then init + {n} else init;
    }
  }

  /** The loop alone, k parts in: k goroutines started and none has moved yet. */
  function Spawned(parts: nat, k: nat): State
    requires k <= parts
  {
    State(k, Adding, k, k, seq(k, _ => Fetching) + seq(parts - k, _ => Unborn), seq(parts, _ => None))
  }

  /** Three moves of the loop for each part. */
  function Rounds(k: nat): seq<Event> {
    if k == 0 then [] else Rounds(k - 1) + [Loop] + [Loop] + [Loop]
  }

  lemma {:induction false} OneRound(parts: nat, k: nat)
    requires k < parts && k < 8
    ensures var s := Spawned(parts, k);
            && Enabled(s, Loop) && Enabled(LoopStep(s), Loop) && Enabled(LoopStep(LoopStep(s)), Loop)
            && LoopStep(LoopStep(LoopStep(s))) == Spawned(parts, k + 1)
  {
    assert Spawned(parts, k).workers[k := Fetching] == Spawned(parts, k + 1).workers;
  }

  lemma {:induction false} OneMove(parts: nat, schedule: seq<Event>, s: State)
    requires Exec(parts, schedule) == s && Enabled(s, Loop)
    ensures Exec(parts, schedule + [Loop]) == LoopStep(s)
  {
    assert (schedule + [Loop])[..|schedule|] == schedule;
  }

  lemma {:induction false} LoopRunsAhead(parts: nat, k: nat)
    requires k <= parts && k <= 8
    ensures Exec(parts, Rounds(k)) == Spawned(parts, k)
  {
    if k == 0 {
      assert Init(parts).workers == Spawned(parts, 0).workers;
    } else {
      var s, before := Spawned(parts, k - 1), Rounds(k - 1);
      LoopRunsAhead(parts, k - 1);
      OneRound(parts, k - 1);
      OneMove(parts, before, s);
      OneMove(parts, before + [Loop], LoopStep(s));
      OneMove(parts, before + [Loop] + [Loop], LoopStep(LoopStep(s)));
    }
  }

  /** And with enough parts there are eight, in some interleaving. */
  lemma {:induction false} EightAtOnce(parts: nat)
    requires parts >= 8
    ensures exists schedule :: Holders(Exec(parts, schedule).workers) == 8
  {
    LoopRunsAhead(parts, 8);
    Reachable(parts, Rounds(8));
  }

  lemma {:induction false} SomeoneHolds(ws: seq<Worker>) returns (i: nat)
    requires Holders(ws) > 0
    ensures i < |ws| && Holds(ws[i]) == 1
  {
    var n := |ws| - 1;
    if Holds(ws[n]) == 1 { return n; }
    i := SomeoneHolds(ws[..n]);
  }

  lemma {:induction false} SomeonePending(ws: seq<Worker>) returns (i: nat)
    requires Pendings(ws) > 0
    ensures i < |ws| && Pending(ws[i]) == 1
  {
    var n := |ws| - 1;
    if Pending(ws[n]) == 1 { return n; }
    i := SomeonePending(ws[..n]);
  }

  /** Until the call returns, someone can move. */
  lemma {:induction false} NeverStuck(parts: nat, schedule: seq<Event>, answer: Fetch)
    requires Exec(parts, schedule).spawner != Done
    ensures exists e :: Enabled(Exec(parts, schedule), e)
  {
    Reachable(parts, schedule);
    var s := Exec(parts, schedule);
    if s.spawner == Acquiring && s.sem == CONCURRENCY {
      var i := SomeoneHolds(s.workers);
      assert Enabled(s, Goroutine(i, answer));
    } else if s.spawner == Waiting && s.wg > 0 {
      var i := SomeonePending(s.workers);
      assert Enabled(s, Goroutine(i, answer));
    } else {
      assert Enabled(s, Loop);
    }
  }

  function LoopLeft(s: State): nat {
    (if s.next < |s.workers| then 3 * (|s.workers| - s.next) else 0) +
    match s.spawner
    case Adding => 2
    case Acquiring => 1
    case Spawning => 0
    case Waiting => 1
    case Done => 0
  }

  function WorkerLeft(w: Worker): nat {
    match w
    case Unborn => 4
    case Fetching => 3
    case Written => 2
    case Released => 1
    case Finished => 0
  }

  function WorkersLeft(ws: seq<Worker>): nat {
    if ws == [] then 0 else WorkersLeft(ws[..|ws| - 1]) + WorkerLeft(ws[|ws| - 1])
  }

  lemma {:induction false} WorkersLeftAfterUpdate(ws: seq<Worker>, i: nat, w: Worker)
    requires i < |ws|
    ensures WorkersLeft(ws[i := w]) == WorkersLeft(ws) - WorkerLeft(ws[i]) + WorkerLeft(w)
  {
    var n := |ws| - 1;
    if i == n {
      assert ws[i := w][..n] == ws[..n];
    } else {
      assert ws[i := w][..n] == ws[..n][i := w];
      WorkersLeftAfterUpdate(ws[..n], i, w);
    }
  }

  function MovesLeft(s: State): nat {
    LoopLeft(s) + WorkersLeft(s.workers)
  }

  lemma {:induction false} LoopCounts(s: State, parts: nat)
    requires Inv(s, parts) && Enabled(s, Loop)
    ensures MovesLeft(LoopStep(s)) < MovesLeft(s)
  {
    if s.spawner == Spawning {
      WorkersLeftAfterUpdate(s.workers, s.next, Fetching);
    }
  }

  lemma {:induction false} WorkerCounts(s: State, parts: nat, i: nat, answer: Fetch)
    requires Shape(s, parts) && Enabled(s, Goroutine(i, answer))
    ensures MovesLeft(WorkerStep(s, i, answer)) < MovesLeft(s)
  {
    match s.workers[i]
    case Fetching => WorkersLeftAfterUpdate(s.workers, i, Written);
    case Written => WorkersLeftAfterUpdate(s.workers, i, Released);
    case Released => WorkersLeftAfterUpdate(s.workers, i, Finished);
  }

  /** Every move uses up one of finitely many, so the call does return. */
  lemma {:induction false} EveryStepCounts(parts: nat, schedule: seq<Event>, e: Event)
    requires Enabled(Exec(parts, schedule), e)
    ensures MovesLeft(Step(Exec(parts, schedule), e)) < MovesLeft(Exec(parts, schedule))
  {
    Reachable(parts, schedule);
    match e
    case Loop => LoopCounts(Exec(parts, schedule), parts);
    case Goroutine(i, answer) => WorkerCounts(Exec(parts, schedule), parts, i, answer);
  }

  /** A stored result is never replaced. */
  lemma {:induction false} ResultsAreFinal(parts: nat, schedule: seq<Event>, e: Event, i: nat)
    requires i < |Exec(parts, schedule).slots| && Exec(parts, schedule).slots[i].Some?
    ensures var s' := Exec(parts, schedule + [e]);
            i < |s'.slots| && s'.slots[i] == Exec(parts, schedule).slots[i]
  {
    Reachable(parts, schedule);
    assert (schedule + [e])[..|schedule|] == schedule;
  }

  // ---------- The result ----------

  /** Fetching the parts one after the other, giving up at the first failure. */
  function Combine(results: seq<Fetch>): Fetch {
    if results == [] then Found([])
    else
      var before, last := Combine(results[..|results| - 1]), results[|results| - 1];
      if !before.Found? then before else if last.Found? then Found(before.data + last.data) else last
  }

  function JoinFound(results: seq<Fetch>): Bytes
    requires forall i :: 0 <= i < |results| ==> results[i].Found?
  {
    if results == [] then [] else JoinFound(results[..|results| - 1]) + results[|results| - 1].data
  }

  lemma {:induction false} CombineOfFound(results: seq<Fetch>)
    requires forall i :: 0 <= i < |results| ==> results[i].Found?
    ensures Combine(results) == Found(JoinFound(results))
  {
    if results != [] {
      CombineOfFound(results[..|results| - 1]);
    }
  }

  lemma {:induction false} CombineStops(results: seq<Fetch>, k: nat)
    requires k < |results| && !results[k].Found?
    requires forall i :: 0 <= i < k ==> results[i].Found?
    ensures Combine(results) == results[k]
  {
    var n := |results| - 1;
    if k < n {
      CombineStops(results[..n], k);
    } else {
      CombineOfFound(results[..n]);
    }
  }

  /** The code after wg.Wait: first the errors in part order, then the bytes. */
  method CollectResults(results: seq<Fetch>) returns (r: Fetch)
    ensures r == Combine(results)
  {
    for i := 0 to |results|
      invariant forall k :: 0 <= k < i ==> results[k].Found?
    {
      if !results[i].Found? {
        CombineStops(results, i);
        return results[i];
      }
    }
    var combined: Bytes := [];
    for i := 0 to |results|
      invariant combined == JoinFound(results[..i])
    {
      assert results[..i + 1][..i] == results[..i];
      combined := combined + results[i].data;
    }
    CombineOfFound(results);
    assert results[..|results|] == results;
    return Found(combined);
  }

  function Results(slots: seq<Option<Fetch>>): seq<Fetch>
    requires forall slot <- slots :: slot.Some?
  {
    seq(|slots|, i requires 0 <= i < |slots| => slots[i].value)
  }

  lemma {:induction false} NonePending(ws: seq<Worker>, i: nat)
    requires i < |ws| && Pendings(ws) == 0
    ensures Pending(ws[i]) == 0
  {
    CountsAtLeast(ws, i);
  }

  /** When the call returns, every part has exactly one result, and what it
      returns succeeds iff all parts did. */
  lemma {:induction false} AfterWait(parts: nat, schedule: seq<Event>)
    requires Exec(parts, schedule).spawner == Done
    ensures var s := Exec(parts, schedule);
            && |s.slots| == parts
            && (forall slot <- s.slots :: slot.Some?)
            && (Combine(Results(s.slots)).Found? <==> forall slot <- s.slots :: slot.value.Found?)
  {
    Reachable(parts, schedule);
    var s := Exec(parts, schedule);
    forall i | 0 <= i < parts
      ensures s.slots[i].Some?
    {
      NonePending(s.workers, i);
    }
    CombineSucceeds(Results(s.slots));
    assert forall i :: 0 <= i < parts ==> Results(s.slots)[i] == s.slots[i].value;
    if forall slot <- s.slots :: slot.value.Found? {
      forall r | r in Results(s.slots) ensures r.Found? {
        var i :| 0 <= i < parts && Results(s.slots)[i] == r;
        assert s.slots[i] in s.slots;
      }
    } else {
      var slot :| slot in s.slots && !slot.value.Found?;
      var i :| 0 <= i < parts && s.slots[i] == slot;
      assert Results(s.slots)[i] in Results(s.slots);
    }
  }

  lemma {:induction false} CombineSucceeds(results: seq<Fetch>)
    ensures Combine(results).Found? <==> forall r <- results :: r.Found?
  {
    if results != [] {
      CombineSucceeds(results[..|results| - 1]);
      assert results == results[..|results| - 1] + [results[|results| - 1]];
    }
  }

  /** Fetches that succeed give the part's bytes, as FetchContent and the cache
      guarantee. */
  ghost predicate Honest(parts: seq<ChunkRef>, e: Event) {
    e.Goroutine? && e.i < |parts| && e.answer.Found? ==> e.answer.data == parts[e.i].hash.preimage
  }

  /** Slot i holds nothing, a failure, or the bytes of part i. */
  ghost predicate SlotHolds(parts: seq<ChunkRef>, slots: seq<Option<Fetch>>, i: nat)
    requires i < |parts|
  {
    i < |slots| && (slots[i].Some? && slots[i].value.Found? ==> slots[i].value.data == parts[i].hash.preimage)
  }

  lemma {:induction false} StepKeepsSlot(parts: seq<ChunkRef>, s: State, e: Event, i: nat)
    requires i < |parts| && |s.slots| == |s.workers| == |parts| && SlotHolds(parts, s.slots, i)
    requires Enabled(s, e) && Honest(parts, e)
    ensures SlotHolds(parts, Step(s, e).slots, i)
  {
  }

  lemma {:induction false} SlotsHoldTheirPart(parts: seq<ChunkRef>, schedule: seq<Event>, i: nat)
    requires forall e <- schedule :: Honest(parts, e)
    requires i < |parts|
    ensures SlotHolds(parts, Exec(|parts|, schedule).slots, i)
  {
    if schedule != [] {
      var init, e := schedule[..|schedule| - 1], schedule[|schedule| - 1];
      assert e in schedule && forall d <- init :: d in schedule;
      Reachable(|parts|, init);
      SlotsHoldTheirPart(parts, init, i);
      if Enabled(Exec(|parts|, init), e) {
        StepKeepsSlot(parts, Exec(|parts|, init), e, i);
      }
    }
  }

  lemma {:induction false} FoundPartsJoin(parts: seq<ChunkRef>, results: seq<Fetch>)
    requires |results| == |parts|
    requires forall i :: 0 <= i < |parts| ==> (results[i].Found? ==> results[i].data == parts[i].hash.preimage)
    ensures Combine(results).Found? ==> Combine(results).data == JoinRefs(parts)
  {
    if parts != [] {
      FoundPartsJoin(parts[..|parts| - 1], results[..|results| - 1]);
    }
  }

  /** Whatever the interleaving, a call that succeeds returns the parts' bytes
      joined in part order. */
  lemma {:induction false} ParallelFetchIsSequential(parts: seq<ChunkRef>, schedule: seq<Event>)
    requires forall e <- schedule :: Honest(parts, e)
    requires Exec(|parts|, schedule).spawner == Done
    ensures var slots := Exec(|parts|, schedule).slots;
            && (forall slot <- slots :: slot.Some?)
            && (Combine(Results(slots)).Found? ==> Combine(Results(slots)).data == JoinRefs(parts))
  {
    AfterWait(|parts|, schedule);
    var slots := Exec(|parts|, schedule).slots;
    forall i | 0 <= i < |parts|
      ensures Results(slots)[i].Found? ==> Results(slots)[i].data == parts[i].hash.preimage
    {
      SlotsHoldTheirPart(parts, schedule, i);
    }
    FoundPartsJoin(parts, Results(slots));
  }
}
