// gateway/names.go, NameCache.do: concurrent lookups of one name share a
// single call. A state machine whose steps are the sections between blocking
// points, taken by any caller in any order.
module SingleFlight {
  import opened Evmfs

  /** Where a caller of do(name, fn) is. `call` numbers the in-flight records. */
  datatype Phase<R> =
    | Idle
    | Waiting(call: nat)            // in wg.Wait
    | Running(call: nat)            // leader, inside fn
    | Wrote(call: nat)              // leader, answer stored
    | Deleted(call: nat)            // leader, record out of the map, Done not yet called
    | Returned(call: nat, answer: R)

  datatype Caller<R> = Caller(name: string, phase: Phase<R>)

  /** inflightLookup, with its leader and whether wg.Done has been called. */
  datatype Call<R> = Call(name: string, leader: nat, answer: Option<R>, done: bool)

  datatype State<R> = State(flight: map<string, nat>, calls: seq<Call<R>>, callers: seq<Caller<R>>)

  function Init<R>(names: seq<string>): State<R> {
    State(map[], [], seq(|names|, i requires 0 <= i < |names| => Caller(names[i], Idle)))
  }

  predicate Enabled<R>(s: State<R>, t: nat) {
    t < |s.callers| &&
    match s.callers[t].phase
    case Waiting(c) => c < |s.calls| && s.calls[c].done && s.calls[c].answer.Some?
    case Returned(_, _) => false
    case _ => true
  }

  function SetPhase<R>(s: State<R>, t: nat, phase: Phase<R>): State<R>
    requires t < |s.callers|
  {
    s.(callers := s.callers[t := s.callers[t].(phase := phase)])
  }

  /** What caller t does next; `answer` is what fn returns if it is asked now. */
  function Step<R>(s: State<R>, t: nat, answer: R): State<R>
    requires Enabled(s, t)
  {
    var name := s.callers[t].name;
    match s.callers[t].phase
    case Idle =>
      if name in s.flight then SetPhase(s, t, Waiting(s.flight[name]))
      else
        var c := |s.calls|;
        SetPhase(s, t, Running(c)).(flight := s.flight[name := c], calls := s.calls + [Call(name, t, None, false)])
    case Running(c) =>
      if c < |s.calls| then
        SetPhase(s, t, Wrote(c)).(calls := s.calls[c := s.calls[c].(answer := Some(answer))])
      else s
    case Wrote(c) =>
      SetPhase(s, t, Deleted(c)).(flight := s.flight - {name})
    case Deleted(c) =>
      if c < |s.calls| && s.calls[c].answer.Some? then
        SetPhase(s, t, Returned(c, s.calls[c].answer.value)).(calls := s.calls[c := s.calls[c].(done := true)])
      else s
    case Waiting(c) =>
      SetPhase(s, t, Returned(c, s.calls[c].answer.value))
    case Returned(_, _) => s
  }

  /** An interleaving: who steps, and what its fn would answer. A caller that
      is blocked or finished stays where it is. */
  type Schedule<R> = seq<(nat, R)>

  function Exec<R>(names: seq<string>, schedule: Schedule<R>): (s: State<R>)
    ensures |s.callers| == |names|
  {
    if schedule == [] then Init(names)
    else
      var s, next := Exec(names, schedule[..|schedule| - 1]), schedule[|schedule| - 1];
      if Enabled(s, next.0) then Step(s, next.0, next.1) else s
  }

  // ---------- The invariant ----------

  /** Caller t leads call c and has not yet taken it out of the map. */
  ghost predicate Leading<R>(s: State<R>, t: nat, c: nat) {
    t < |s.callers| && (s.callers[t].phase == Running(c) || s.callers[t].phase == Wrote(c))
  }

  /** Callers and calls agree about who leads what. */
  ghost predicate CallerOk<R>(s: State<R>, t: nat)
    requires t < |s.callers|
  {
    var me := s.callers[t];
    match me.phase
    case Idle => true
    case Waiting(c) => c < |s.calls| && s.calls[c].name == me.name
    case Running(c) =>
      && c < |s.calls| && s.calls[c].leader == t && s.calls[c].answer.None?
      && me.name in s.flight && s.flight[me.name] == c
    case Wrote(c) =>
      && c < |s.calls| && s.calls[c].leader == t && s.calls[c].answer.Some?
      && me.name in s.flight && s.flight[me.name] == c
    case Deleted(c) =>
      c < |s.calls| && s.calls[c].leader == t && s.calls[c].answer.Some? && s.calls[c].name == me.name
    case Returned(c, answer) =>
      c < |s.calls| && s.calls[c].name == me.name && s.calls[c].answer == Some(answer) && s.calls[c].done
  }

  ghost predicate CallOk<R>(s: State<R>, c: nat)
    requires c < |s.calls|
  {
    var call := s.calls[c];
    && call.leader < |s.callers| && s.callers[call.leader].name == call.name
    && (call.done ==> call.answer.Some?
                      && s.callers[call.leader].phase == Returned(c, call.answer.value))
    && (!call.done ==> Leading(s, call.leader, c) || s.callers[call.leader].phase == Deleted(c))
  }

  ghost predicate FlightOk<R>(s: State<R>, name: string)
    requires name in s.flight
  {
    var c := s.flight[name];
    c < |s.calls| && s.calls[c].name == name && Leading(s, s.calls[c].leader, c)
  }

  ghost predicate Inv<R>(s: State<R>) {
    && (forall t :: 0 <= t < |s.callers| ==> CallerOk(s, t))
    && (forall c :: 0 <= c < |s.calls| ==> CallOk(s, c))
    && (forall name :: name in s.flight ==> FlightOk(s, name))
  }

  lemma {:induction false} StepKeepsCallers<R>(s: State<R>, t: nat, answer: R, u: nat)
    requires Inv(s) && Enabled(s, t) && u < |s.callers|
    ensures CallerOk(Step(s, t, answer), u)
  {
    assert CallerOk(s, t) && CallerOk(s, u);
    if s.callers[t].phase.Running? || s.callers[t].phase.Deleted? {
      assert CallOk(s, s.callers[t].phase.call);
    }
  }

  lemma {:induction false} StepKeepsCalls<R>(s: State<R>, t: nat, answer: R, c: nat)
    requires Inv(s) && Enabled(s, t) && c < |Step(s, t, answer).calls|
    ensures CallOk(Step(s, t, answer), c)
  {
    assert CallerOk(s, t);
    if c < |s.calls| {
      assert CallOk(s, c);
    }
  }

  lemma {:induction false} StepKeepsFlight<R>(s: State<R>, t: nat, answer: R, name: string)
    requires Inv(s) && Enabled(s, t) && name in Step(s, t, answer).flight
    ensures FlightOk(Step(s, t, answer), name)
  {
    assert CallerOk(s, t);
    if name in s.flight {
      assert FlightOk(s, name) && CallOk(s, s.flight[name]);
    }
  }

  lemma {:induction false} StepKeepsInv<R>(s: State<R>, t: nat, answer: R)
    requires Inv(s) && Enabled(s, t)
    ensures Inv(Step(s, t, answer))
  {
    var s' := Step(s, t, answer);
    forall u | 0 <= u < |s'.callers|
      ensures CallerOk(s', u)
    {
      StepKeepsCallers(s, t, answer, u);
    }
    forall c | 0 <= c < |s'.calls|
      ensures CallOk(s', c)
    {
      StepKeepsCalls(s, t, answer, c);
    }
    forall name | name in s'.flight
      ensures FlightOk(s', name)
    {
      StepKeepsFlight(s, t, answer, name);
    }
  }

  lemma {:induction false} Reachable<R>(names: seq<string>, schedule: Schedule<R>)
    ensures Inv(Exec(names, schedule))
    ensures forall t :: 0 <= t < |names| ==> Exec(names, schedule).callers[t].name == names[t]
  {
    if schedule != [] {
      var s, next := Exec(names, schedule[..|schedule| - 1]), schedule[|schedule| - 1];
      Reachable(names, schedule[..|schedule| - 1]);
      if Enabled(s, next.0) {
        StepKeepsInv(s, next.0, next.1);
      }
    }
  }

  // ---------- What callers may rely on ----------

  /** At most one fn runs per name. */
  lemma {:induction false} OneLookupPerName<R>(names: seq<string>, schedule: Schedule<R>, t: nat, u: nat)
    requires t < |names| && u < |names| && names[t] == names[u]
    requires Exec(names, schedule).callers[t].phase.Running? && Exec(names, schedule).callers[u].phase.Running?
    ensures t == u
  {
    Reachable(names, schedule);
    var s := Exec(names, schedule);
    assert CallerOk(s, t) && CallerOk(s, u);
  }

  /** A name is in the map exactly while a leader for it is between inserting
      and deleting. */
  lemma {:induction false} InMapWhileLeading<R>(names: seq<string>, schedule: Schedule<R>, name: string)
    ensures var s := Exec(names, schedule);
            name in s.flight <==> exists t, c :: 0 <= t < |names| && 0 <= c && names[t] == name && Leading(s, t, c)
  {
    Reachable(names, schedule);
    var s := Exec(names, schedule);
    if name in s.flight {
      assert FlightOk(s, name);
      assert CallOk(s, s.flight[name]);
    }
    if t, c :| 0 <= t < |names| && 0 <= c && names[t] == name && Leading(s, t, c) {
      assert CallerOk(s, t);
    }
  }

  /** Whoever returns from a call returns what its leader returned, and the
      leader has already returned it when anyone else does. */
  lemma {:induction false} EveryoneGetsTheLeadersAnswer<R>(names: seq<string>, schedule: Schedule<R>, t: nat, c: nat,
                                                           answer: R)
    requires t < |names| && Exec(names, schedule).callers[t].phase == Returned(c, answer)
    ensures var s := Exec(names, schedule);
            && c < |s.calls| && s.calls[c].leader < |s.callers|
            && names[s.calls[c].leader] == names[t]
            && s.callers[s.calls[c].leader].phase == Returned(c, answer)
  {
    Reachable(names, schedule);
    var s := Exec(names, schedule);
    assert CallerOk(s, t) && CallOk(s, c);
  }

  /** An answer, once written, is never replaced, and a returned caller is done. */
  lemma {:induction false} AnswersAreFinal<R>(names: seq<string>, schedule: Schedule<R>, next: (nat, R), c: nat)
    requires c < |Exec(names, schedule).calls| && Exec(names, schedule).calls[c].answer.Some?
    ensures var s, s' := Exec(names, schedule), Exec(names, schedule + [next]);
            c < |s'.calls| && s'.calls[c].answer == s.calls[c].answer
  {
    Reachable(names, schedule);
    var s := Exec(names, schedule);
    assert (schedule + [next])[..|schedule|] == schedule;
    if Enabled(s, next.0) {
      assert CallerOk(s, next.0);
    }
  }

  lemma {:induction false} WrittenAnswerFits<R>(names: seq<string>, schedule: Schedule<R>, ok: (string, R) -> bool,
                                                c: nat)
    requires forall next <- schedule :: next.0 < |names| ==> ok(names[next.0], next.1)
    requires c < |Exec(names, schedule).calls| && Exec(names, schedule).calls[c].answer.Some?
    ensures ok(Exec(names, schedule).calls[c].name, Exec(names, schedule).calls[c].answer.value)
  {
    var init, next := schedule[..|schedule| - 1], schedule[|schedule| - 1];
    var s := Exec(names, init);
    assert next in schedule && forall e <- init :: e in schedule;
    Reachable(names, init);
    if c < |s.calls| && s.calls[c].answer.Some? {
      WrittenAnswerFits(names, init, ok, c);
    }
    if Enabled(s, next.0) {
      assert CallerOk(s, next.0);
      if s.callers[next.0].phase.Running? {
        assert CallOk(s, s.callers[next.0].phase.call);
      }
    }
  }

  /** Whatever holds of every answer a caller's own lookup could give for its
      name holds of the answer it returns, its own or the one it waited for. */
  lemma {:induction false} JoinedAnswersFit<R>(names: seq<string>, schedule: Schedule<R>, ok: (string, R) -> bool,
                                               t: nat, c: nat, answer: R)
    requires forall next <- schedule :: next.0 < |names| ==> ok(names[next.0], next.1)
    requires t < |names| && Exec(names, schedule).callers[t].phase == Returned(c, answer)
    ensures ok(names[t], answer)
  {
    Reachable(names, schedule);
    assert CallerOk(Exec(names, schedule), t);
    WrittenAnswerFits(names, schedule, ok, c);
  }

  // ---------- Nobody waits for ever ----------

  /** As long as someone has not returned, someone can step. */
  lemma {:induction false} NeverStuck<R>(names: seq<string>, schedule: Schedule<R>, t: nat)
    requires t < |names| && !Exec(names, schedule).callers[t].phase.Returned?
    ensures exists u: nat :: u < |names| && Enabled(Exec(names, schedule), u)
  {
    Reachable(names, schedule);
    var s := Exec(names, schedule);
    assert CallerOk(s, t);
    if s.callers[t].phase.Waiting? {
      var c := s.callers[t].phase.call;
      assert CallOk(s, c);
      if !s.calls[c].done {
        assert Enabled(s, s.calls[c].leader);
      } else {
        assert Enabled(s, t);
      }
    } else {
      assert Enabled(s, t);
    }
  }

  /** How many steps a caller may still take. */
  function StepsLeft<R>(phase: Phase<R>): nat {
    match phase
    case Idle => 4
    case Running(_) => 3
    case Wrote(_) => 2
    case Deleted(_) => 1
    case Waiting(_) => 1
    case Returned(_, _) => 0
  }

  function TotalLeft<R>(callers: seq<Caller<R>>): nat {
    if callers == [] then 0 else TotalLeft(callers[..|callers| - 1]) + StepsLeft(callers[|callers| - 1].phase)
  }

  lemma {:induction false} OneChanged<R>(a: seq<Caller<R>>, b: seq<Caller<R>>, t: nat)
    requires t < |a| == |b| && forall u :: 0 <= u < |a| && u != t ==> a[u] == b[u]
    requires StepsLeft(b[t].phase) < StepsLeft(a[t].phase)
    ensures TotalLeft(b) < TotalLeft(a)
  {
    var n := |a| - 1;
    if t == n {
      assert a[..n] == b[..n];
    } else {
      OneChanged(a[..n], b[..n], t);
    }
  }

  /** Every step brings the end nearer: with NeverStuck, any schedule that keeps
      giving turns to callers that can step lets every caller return, after at
      most four steps each. */
  lemma {:induction false} EveryStepCounts<R>(names: seq<string>, schedule: Schedule<R>, t: nat, answer: R)
    requires Enabled(Exec(names, schedule), t)
    ensures TotalLeft(Step(Exec(names, schedule), t, answer).callers) < TotalLeft(Exec(names, schedule).callers)
  {
    Reachable(names, schedule);
    var s := Exec(names, schedule);
    assert CallerOk(s, t);
    OneChanged(s.callers, Step(s, t, answer).callers, t);
  }
}
