/** EventEmitterSwapIterator itself, method by method, and the loop of its callers. What the environment
    does during a call, and which way the select goes when both channels are ready, are arguments. */
module SwapIterator {
  import opened Wrappers
  import opened Subscription

  function DisturbAll(s: State, outers: seq<Outer>): (t: State)
    ensures t.event == s.event && t.done == s.done && t.fail == s.fail && t.place == s.place
    ensures t.received == s.received && t.yielded == s.yielded && t.returned == s.returned
    ensures !s.end.Running? ==> t.end == s.end && t.finished == s.finished
    ensures s.buffer <= t.buffer
  {
    if outers == [] then s
    else Disturb(DisturbAll(s, outers[..|outers| - 1]), outers[|outers| - 1])
  }

  /** The environment's part of one call: what it does until the select can go ahead, which case the
      select takes if both can, and what it does between the two selects. */
  datatype Environment = Environment(before: seq<Outer>, preferEnd: bool, between: seq<Outer>)

  /** Nothing happens but the choice. */
  function Quiet(preferEnd: bool): Environment {
    Environment([], preferEnd, [])
  }

  /** A call that gets as far as the blocking select returns only if a channel becomes ready. */
  predicate Returns(s: State, env: Environment) {
    s.fail.Some? || s.done ||
    var t := DisturbAll(s, env.before);
    t.buffer != [] || !t.end.Running?
  }

  /** The end signal is taken, before the recursive call. */
  function AfterEnd(s: State): State {
    s.(done := true, end := Closed, fail := if s.end.Failed? then Some(s.end.error) else None)
  }

  /** The select with a default. */
  function Pull(unpack: Unpack, s: State): State {
    if s.buffer == [] then Return(s, false) else Deliver(unpack, s)
  }

  /** The state after a whole call of Next. */
  function NextCall(unpack: Unpack, s: State, env: Environment): State
    requires Returns(s, env)
  {
    if s.fail.Some? then Return(s, false)
    else if s.done then Pull(unpack, s)
    else
      var t := DisturbAll(s, env.before);
      if t.buffer != [] && (t.end.Running? || !env.preferEnd) then Deliver(unpack, t)
      else
        var u := AfterEnd(t);
        if u.fail.Some? then Return(u, false) else Pull(unpack, DisturbAll(u, env.between))
  }

  // ---------- a call is a run of the two-party system ----------

  function Envs(outers: seq<Outer>): (actions: seq<Action>)
    ensures |actions| == |outers|
    ensures forall i | 0 <= i < |outers| :: actions[i] == Env(outers[i])
  {
    seq(|outers|, i requires 0 <= i < |outers| => Env(outers[i]))
  }

  lemma {:induction false} EnvsRun(unpack: Unpack, s: State, outers: seq<Outer>)
    ensures Run(unpack, s, Envs(outers)) == Some(DisturbAll(s, outers))
  {
    if outers != [] {
      EnvsRun(unpack, s, outers[..|outers| - 1]);
      assert Envs(outers)[..|outers| - 1] == Envs(outers[..|outers| - 1]);
    }
  }

  lemma {:induction false} RunSnoc(unpack: Unpack, s: State, actions: seq<Action>, a: Action)
    ensures Run(unpack, s, actions + [a]) ==
            match Run(unpack, s, actions)
            case None => None
            case Some(t) => if Enabled(t, a) then Some(Step(unpack, t, a)) else None
  {
    assert (actions + [a])[..|actions|] == actions;
  }

  /** The actions of one call: a Call, at most one end signal, hence at most one recursion, and at most
      one log. */
  function Actions(s: State, env: Environment): seq<Action>
    requires Returns(s, env)
  {
    if s.fail.Some? then [Call]
    else if s.done then [Call, Drain]
    else
      var t := DisturbAll(s, env.before);
      if t.buffer != [] && (t.end.Running? || !env.preferEnd) then [Call] + Envs(env.before) + [TakeLog]
      else if t.end.Failed? then [Call] + Envs(env.before) + [TakeEnd]
      else [Call] + Envs(env.before) + [TakeEnd] + Envs(env.between) + [Drain]
  }

  /** Going inside Next and a change of the environment commute. */
  lemma {:induction false} DisturbPlaced(s: State, place: Place, outers: seq<Outer>)
    ensures DisturbAll(s.(place := place), outers) == DisturbAll(s, outers).(place := place)
  {
    if outers != [] {
      DisturbPlaced(s, place, outers[..|outers| - 1]);
    }
  }

  lemma {:induction false} RunCalled(unpack: Unpack, s: State)
    requires s.place == Outside
    ensures Run(unpack, s, [Call]) == Some(Step(unpack, s, Call))
  {
    RunSnoc(unpack, s, [], Call);
    assert [] + [Call] == [Call];
  }

  lemma {:induction false} RunStarted(unpack: Unpack, s: State, outers: seq<Outer>)
    requires s.place == Outside && s.fail.None? && !s.done
    ensures Run(unpack, s, [Call] + Envs(outers)) == Some(DisturbAll(s, outers).(place := Selecting))
  {
    RunCalled(unpack, s);
    RunEnvs(unpack, s, [Call], s, Selecting, outers);
  }

  lemma {:induction false} RunTakeClose(unpack: Unpack, s: State, started: seq<Action>, t: State)
    requires t.place == Outside && t.end == Closed
    requires Run(unpack, s, started) == Some(t.(place := Selecting))
    ensures Run(unpack, s, started + [TakeEnd]) == Some(AfterEnd(t).(place := Draining))
  {
    RunSnoc(unpack, s, started, TakeEnd);
  }

  lemma {:induction false} RunEnvs(unpack: Unpack, s: State, actions: seq<Action>, u: State, place: Place,
                                   outers: seq<Outer>)
    requires Run(unpack, s, actions) == Some(u.(place := place))
    ensures Run(unpack, s, actions + Envs(outers)) == Some(DisturbAll(u, outers).(place := place))
  {
    RunConcat(unpack, s, actions, Envs(outers));
    EnvsRun(unpack, u.(place := place), outers);
    DisturbPlaced(u, place, outers);
  }

  lemma {:induction false} RunDrain(unpack: Unpack, s: State, actions: seq<Action>, u: State)
    requires u.place == Outside
    requires Run(unpack, s, actions) == Some(u.(place := Draining))
    ensures Run(unpack, s, actions + [Drain]) == Some(Pull(unpack, u))
  {
    RunSnoc(unpack, s, actions, Drain);
  }

  lemma {:induction false} RunEnded(unpack: Unpack, s: State, started: seq<Action>, t: State, outers: seq<Outer>)
    requires t.place == Outside && t.end == Closed
    requires Run(unpack, s, started) == Some(t.(place := Selecting))
    ensures Run(unpack, s, started + [TakeEnd] + Envs(outers) + [Drain]) ==
            Some(Pull(unpack, DisturbAll(AfterEnd(t), outers)))
  {
    RunTakeClose(unpack, s, started, t);
    RunEnvs(unpack, s, started + [TakeEnd], AfterEnd(t), Draining, outers);
    RunDrain(unpack, s, started + [TakeEnd] + Envs(outers), DisturbAll(AfterEnd(t), outers));
  }

  lemma {:induction false} RunDone(unpack: Unpack, s: State)
    requires s.place == Outside && s.fail.None? && s.done
    ensures Run(unpack, s, [Call, Drain]) == Some(Pull(unpack, s))
  {
    RunCalled(unpack, s);
    RunSnoc(unpack, s, [Call], Drain);
    assert [Call] + [Drain] == [Call, Drain];
  }

  lemma {:induction false} RunTakeLog(unpack: Unpack, s: State, started: seq<Action>, t: State)
    requires t.place == Outside && t.buffer != []
    requires Run(unpack, s, started) == Some(t.(place := Selecting))
    ensures Run(unpack, s, started + [TakeLog]) == Some(Deliver(unpack, t))
  {
    RunSnoc(unpack, s, started, TakeLog);
  }

  lemma {:induction false} RunTakeError(unpack: Unpack, s: State, started: seq<Action>, t: State)
    requires t.place == Outside && t.end.Failed?
    requires Run(unpack, s, started) == Some(t.(place := Selecting))
    ensures Run(unpack, s, started + [TakeEnd]) == Some(Return(AfterEnd(t), false))
  {
    RunSnoc(unpack, s, started, TakeEnd);
  }

  /** A whole call is a run. */
  lemma {:induction false} NextCallIsRun(unpack: Unpack, s: State, env: Environment)
    requires s.place == Outside && Returns(s, env)
    ensures Run(unpack, s, Actions(s, env)) == Some(NextCall(unpack, s, env))
  {
    if s.fail.Some? {
      RunCalled(unpack, s);
    } else if s.done {
      RunDone(unpack, s);
    } else {
      var t := DisturbAll(s, env.before);
      var started := [Call] + Envs(env.before);
      RunStarted(unpack, s, env.before);
      if t.buffer != [] && (t.end.Running? || !env.preferEnd) {
        RunTakeLog(unpack, s, started, t);
      } else if t.end.Failed? {
        RunTakeError(unpack, s, started, t);
      } else {
        RunEnded(unpack, s, started, t, env.between);
      }
    }
  }

  lemma {:induction false} NextCallFaithful(unpack: Unpack, s: State, env: Environment)
    requires s.place == Outside && Returns(s, env) && Faithful(unpack, s)
    ensures Faithful(unpack, NextCall(unpack, s, env))
  {
    NextCallIsRun(unpack, s, env);
    RunFaithful(unpack, s, Actions(s, env));
  }

  function Last(returned: seq<bool>): bool {
    returned != [] && returned[|returned| - 1]
  }

  lemma {:induction false} LastIs(returned: seq<bool>, before: seq<bool>, more: bool)
    requires returned == before + [more]
    ensures Last(returned) == more
  {
  }

  /** One call, case by case, and what it keeps. */
  lemma {:induction false} NextCallReports(unpack: Unpack, s: State, env: Environment)
    requires s.place == Outside && Returns(s, env)
    ensures var t, more := NextCall(unpack, s, env), Last(NextCall(unpack, s, env).returned);
            && (s.fail.Some? ==>
                  !more && t.fail == s.fail && t.event == s.event && t.done == s.done && t.buffer == s.buffer)
            && (s.fail.None? && !s.done && s.end.Failed? && env.before == [] && (s.buffer == [] || env.preferEnd) ==>
                  !more && t.done && t.fail == Some(s.end.error) && t.buffer == s.buffer && t.event == s.event)
            && (s.fail.None? && !s.done && s.end == Closed && s.buffer == [] &&
                env.before == [] && env.between == [] ==>
                  !more && t.done && t.fail.None?)
            && (Faithful(unpack, s) ==>
                  && Faithful(unpack, t)
                  && (t.done && t.finished.Some? ==> t.fail == t.finished)
                  && ((forall log | log in t.received :: Decodes(unpack, log)) ==>
                        && t.fail == (if t.done then t.finished else None)
                        && (!more ==> t.done)))
  {
    if Faithful(unpack, s) {
      NextCallFaithful(unpack, s, env);
      AllDecodeNoneLost(unpack, NextCall(unpack, s, env));
    }
  }

  // ---------- calls in sequence ----------

  /** What happens at the iterator: the environment moves between calls, or Next is called. */
  datatype Move = Happens(outer: Outer) | Calls(env: Environment)

  predicate Possible(s: State, move: Move) {
    move.Calls? ==> Returns(s, move.env)
  }

  function Moved(unpack: Unpack, s: State, move: Move): State
    requires Possible(s, move)
  {
    match move
    case Happens(outer) => Disturb(s, outer)
    case Calls(env) => NextCall(unpack, s, env)
  }

  /** The state after a sequence of calls and moves; None if some call does not come back. */
  function MovedAll(unpack: Unpack, s: State, moves: seq<Move>): Option<State> {
    if moves == [] then Some(s)
    else
      var t :- MovedAll(unpack, s, moves[..|moves| - 1]);
      var last := moves[|moves| - 1];
      if Possible(t, last) then Some(Moved(unpack, t, last)) else None
  }

  /** All their channel operations, in order. */
  function ActionsOf(unpack: Unpack, s: State, moves: seq<Move>): seq<Action>
    requires MovedAll(unpack, s, moves).Some?
  {
    if moves == [] then []
    else
      var init, last := moves[..|moves| - 1], moves[|moves| - 1];
      ActionsOf(unpack, s, init) +
      match last
      case Happens(outer) => [Env(outer)]
      case Calls(env) => Actions(MovedAll(unpack, s, init).value, env)
  }

  lemma {:induction false} NextCallOutside(unpack: Unpack, s: State, env: Environment)
    requires s.place == Outside && Returns(s, env)
    ensures NextCall(unpack, s, env).place == Outside
  {
  }

  /** Any sequence of calls, with the environment moving in and between them, is one run; so whatever
      holds of all runs holds of all sequences of calls. */
  lemma {:induction false} CallsAreRun(unpack: Unpack, s: State, moves: seq<Move>)
    requires s.place == Outside && MovedAll(unpack, s, moves).Some?
    ensures MovedAll(unpack, s, moves).value.place == Outside
    ensures Run(unpack, s, ActionsOf(unpack, s, moves)) == MovedAll(unpack, s, moves)
  {
    if moves != [] {
      var init, last := moves[..|moves| - 1], moves[|moves| - 1];
      CallsAreRun(unpack, s, init);
      var t, actions := MovedAll(unpack, s, init).value, ActionsOf(unpack, s, init);
      match last {
        case Happens(outer) =>
          RunSnoc(unpack, s, actions, Env(outer));
        case Calls(env) =>
          NextCallIsRun(unpack, t, env);
          NextCallOutside(unpack, t, env);
          RunConcat(unpack, s, actions, Actions(t, env));
      }
    }
  }

  /** Whatever the environment does, the calls of Next yield the events of a prefix of the logs sent. */
  lemma {:induction false} CallsYieldPrefix(unpack: Unpack, moves: seq<Move>)
    requires MovedAll(unpack, START, moves).Some?
    ensures var s := MovedAll(unpack, START, moves).value;
            var n := |s.yielded|;
            n <= |s.sent| && s.yielded == Decoded(unpack, s.sent[..n]) && n == Trues(s.returned)
  {
    CallsAreRun(unpack, START, moves);
    YieldsPrefix(unpack, ActionsOf(unpack, START, moves));
  }

  /** With an orderly producer and logs that decode, the calls of Next return trues and then falses, and
      from the first false on they have yielded every log sent, once and in order, without error. */
  lemma {:induction false} CallsDeliverExactly(unpack: Unpack, moves: seq<Move>)
    requires MovedAll(unpack, START, moves).Some?
    requires Orderly(unpack, START, ActionsOf(unpack, START, moves))
    requires forall log | log in MovedAll(unpack, START, moves).value.sent :: Decodes(unpack, log)
    ensures var s := MovedAll(unpack, START, moves).value;
            && s.fail.None?
            && |s.yielded| <= |s.returned|
            && s.returned == Repeat(true, |s.yielded|) + Repeat(false, |s.returned| - |s.yielded|)
            && (false in s.returned ==> s.yielded == Decoded(unpack, s.sent) && |s.yielded| == |s.sent|)
  {
    CallsAreRun(unpack, START, moves);
    DeliversExactly(unpack, ActionsOf(unpack, START, moves));
  }

  /** In every sequence of calls: once the end of the subscription has been taken, fail is the error that
      the producer finished with, if it did; and as long as all received logs decode there is no other. */
  lemma {:induction false} CallsReportError(unpack: Unpack, moves: seq<Move>, k: int)
    requires MovedAll(unpack, START, moves).Some? && FirstEnd(ActionsOf(unpack, START, moves), k)
    ensures var s, end := MovedAll(unpack, START, moves).value, ActionsOf(unpack, START, moves)[k].outer;
            && (s.done && end.Finish? && end.error.Some? ==> s.fail == end.error)
            && ((forall log | log in s.received :: Decodes(unpack, log)) ==>
                  && s.fail == (if s.done && end.Finish? then end.error else None)
                  && (false in s.returned ==> s.done))
  {
    CallsAreRun(unpack, START, moves);
    ErrorReported(unpack, ActionsOf(unpack, START, moves), k);
  }

  // ---------- draining ----------

  function EventOf(unpack: Unpack, log: Log): SwapEvent {
    SwapEvent(unpack(log).0, Some(log))
  }

  /** A quiet call after a clean end, whichever case the select takes: the next buffered log, or false. */
  lemma {:induction false} NextAfterCleanEnd(unpack: Unpack, s: State, preferEnd: bool)
    requires s.fail.None? && s.end == Closed
    requires s.buffer != [] ==> Decodes(unpack, s.buffer[0])
    ensures Returns(s, Quiet(preferEnd))
    ensures var t := NextCall(unpack, s, Quiet(preferEnd));
            && t.fail.None? && t.end == Closed
            && t.returned == s.returned + [s.buffer != []]
            && if s.buffer == [] then t.buffer == [] && t.yielded == s.yielded
               else
                 t.buffer == s.buffer[1..] && t.event == Some(EventOf(unpack, s.buffer[0])) &&
                 t.yielded == s.yielded + [EventOf(unpack, s.buffer[0])]
  {
  }

  lemma {:induction false} DecodedSnoc(unpack: Unpack, logs: seq<Log>, i: nat)
    requires i < |logs|
    ensures Decoded(unpack, logs[..i + 1]) ==
            Decoded(unpack, logs[..i]) + [EventOf(unpack, logs[i])]
  {
  }

  // ---------- the iterator ----------

  class EventEmitterSwapIterator {
    const unpack: Unpack
    var event: Option<SwapEvent>
    var done: bool
    var fail: Option<GoError>
    // the two channels shared with the producer
    var logs: seq<Log>
    var subEnd: End
    // what has happened so far
    ghost var finished: Option<GoError>
    ghost var sent: seq<Log>
    ghost var received: seq<Log>
    ghost var yielded: seq<SwapEvent>
    ghost var returned: seq<bool>

    ghost function Now(): State
      reads this
    {
      State(event, done, fail, Outside, logs, subEnd, finished, sent, received, yielded, returned)
    }

    constructor (unpack: Unpack)
      ensures this.unpack == unpack && Now() == START
    {
      this.unpack := unpack;
      event, done, fail, logs, subEnd := None, false, None, [], Running;
      finished, sent, received, yielded, returned := None, [], [], [], [];
    }

    /** The environment moves. */
    method ApplyOuter(outers: seq<Outer>)
      modifies this
      ensures Now() == DisturbAll(old(Now()), outers)
    {
      ghost var start := Now();
      for i := 0 to |outers|
        invariant Now() == DisturbAll(start, outers[..i])
      {
        match outers[i] {
          case Send(log) =>
            logs, sent := logs + [log], sent + [log];
          case Finish(error) =>
            if subEnd.Running? {
              subEnd, finished := if error.Some? then Failed(error.value) else Closed, error;
            }
          case Close =>
            CloseIterator();
        }
        assert outers[..i + 1][..i] == outers[..i];
      }
      assert outers[..|outers|] == outers;
    }

    /** What a caller of Next may rely on, field by field. */
    method Next(env: Environment) returns (more: bool)
      requires Returns(Now(), env)
      modifies this
      ensures Now() == NextCall(unpack, old(Now()), env)
      ensures returned == old(returned) + [more]
      ensures old(Faithful(unpack, Now())) ==> Faithful(unpack, Now())
      // a failed iterator stays as it is
      ensures old(fail).Some? ==>
                !more && fail == old(fail) && event == old(event) && done == old(done) && logs == old(logs)
      // the subscription has failed and its error is taken: it is what Error() gives from now on
      ensures old(fail).None? && !old(done) && old(subEnd).Failed? && env.before == [] &&
              (old(logs) == [] || env.preferEnd) ==>
                !more && done && fail == Some(old(subEnd).error) && logs == old(logs) && event == old(event)
      // the subscription has ended cleanly and nothing is left: no error
      ensures old(fail).None? && !old(done) && old(subEnd) == Closed && old(logs) == [] &&
              env.before == [] && env.between == [] ==>
                !more && done && fail.None?
      // whatever has happened before and meanwhile
      ensures old(Faithful(unpack, Now())) && done && finished.Some? ==> fail == finished
      ensures old(Faithful(unpack, Now())) && (forall log | log in received :: Decodes(unpack, log)) ==>
                fail == (if done then finished else None) && (!more ==> done)
    {
      ghost var start := Now();
      NextCallReports(unpack, start, env);
      more := Advance(env);
      LastIs(returned, start.returned, more);
    }

    /** The body of Next. Done is set before the recursive call, so there is at most one. */
    method Advance(env: Environment) returns (more: bool)
      requires Returns(Now(), env)
      modifies this
      ensures Now() == NextCall(unpack, old(Now()), env)
      ensures returned == old(returned) + [more]
      decreases !done
    {
      if fail.Some? {
        returned := returned + [false];
        return false;
      }
      if done {
        more := ReceiveReady();
        return;
      }
      ApplyOuter(env.before);
      if logs != [] && (subEnd.Running? || !env.preferEnd) {
        more := Receive();
      } else {
        ReceiveEnd();
        if fail.None? {
          ApplyOuter(env.between);
        }
        more := Advance(Quiet(false));
      }
    }

    /** The select with a default. */
    method ReceiveReady() returns (more: bool)
      modifies this
      ensures Now() == Pull(unpack, old(Now()))
      ensures returned == old(returned) + [more]
    {
      if logs != [] {
        more := Receive();
      } else {
        returned := returned + [false];
        more := false;
      }
    }

    /** The subscription case of Next, up to the recursive call. */
    method ReceiveEnd()
      modifies this
      ensures Now() == AfterEnd(old(Now()))
      ensures done && subEnd == Closed
      ensures if old(subEnd).Failed? then fail == Some(old(subEnd).error) else fail.None?
      ensures logs == old(logs) && event == old(event) && finished == old(finished) && returned == old(returned)
    {
      done := true;
      fail := if subEnd.Failed? then Some(subEnd.error) else None;
      subEnd := Closed;
    }

    /** Both log cases of Next. */
    method Receive() returns (more: bool)
      requires logs != []
      modifies this
      ensures Now() == Deliver(unpack, old(Now()))
      ensures returned == old(returned) + [more]
      ensures done == old(done)
    {
      var log := logs[0];
      logs := logs[1..];
      received := received + [log];
      var (args, err) := unpack(log);
      event := Some(SwapEvent(args, None));
      if err.Some? {
        fail := err;
        more := false;
      } else {
        event := Some(SwapEvent(args, Some(log)));
        yielded := yielded + [event.value];
        more := true;
      }
      returned := returned + [more];
    }

    method Error() returns (err: Option<GoError>)
      ensures err == fail
    {
      return fail;
    }

    /** A running subscription is closed, without error; one that has ended is left alone. Afterwards no
        call of Next waits for good. */
    method CloseIterator()
      modifies this
      ensures Now() == Disturb(old(Now()), Close)
      ensures subEnd == if old(subEnd).Running? then Closed else old(subEnd)
      ensures logs == old(logs) && event == old(event) && done == old(done) && fail == old(fail)
      ensures finished == old(finished) && sent == old(sent) && received == old(received)
      ensures yielded == old(yielded) && returned == old(returned)
      ensures forall env: Environment :: Returns(Now(), env)
    {
      if subEnd.Running? {
        subEnd := Closed;
      }
    }
  }

  /** A loop over Next, begun in `start`, has just called it again. */
  ghost predicate Round(unpack: Unpack, start: State, s: State, events: seq<SwapEvent>, more: bool) {
    var taken := |events| + if more then 1 else 0;
    && s.end == Closed && s.fail.None?
    && taken <= |start.buffer| && s.buffer == start.buffer[taken..] && (!more ==> s.buffer == [])
    && (more ==> s.event == Some(EventOf(unpack, start.buffer[|events|])))
    && events == Decoded(unpack, start.buffer[..|events|])
    && s.yielded == start.yielded + Decoded(unpack, start.buffer[..taken])
    && s.returned == start.returned + Repeat(true, |events|) + [more]
  }

  lemma {:induction false} FirstRound(unpack: Unpack, start: State, preferEnd: bool)
    requires start.end == Closed && start.fail.None?
    requires forall log | log in start.buffer :: Decodes(unpack, log)
    ensures Returns(start, Quiet(preferEnd))
    ensures Round(unpack, start, NextCall(unpack, start, Quiet(preferEnd)), [], start.buffer != [])
  {
    assert start.buffer != [] ==> start.buffer[0] in start.buffer;
    NextAfterCleanEnd(unpack, start, preferEnd);
    assert start.returned + Repeat(true, 0) == start.returned;
    if start.buffer != [] {
      DecodedSnoc(unpack, start.buffer, 0);
    }
  }

  lemma {:induction false} NextRound(unpack: Unpack, start: State, s: State, events: seq<SwapEvent>, preferEnd: bool)
    requires Round(unpack, start, s, events, true)
    requires forall log | log in start.buffer :: Decodes(unpack, log)
    ensures Returns(s, Quiet(preferEnd))
    ensures Round(unpack, start, NextCall(unpack, s, Quiet(preferEnd)), events + [s.event.value], s.buffer != [])
  {
    var n := |events|;
    DecodedSnoc(unpack, start.buffer, n);
    if s.buffer != [] {
      assert s.buffer[0] == start.buffer[n + 1] && start.buffer[n + 1] in start.buffer;
      DecodedSnoc(unpack, start.buffer, n + 1);
    }
    NextAfterCleanEnd(unpack, s, preferEnd);
    ResultsSnoc(start.returned, n);
  }

  lemma {:induction false} ResultsSnoc(results: seq<bool>, n: nat)
    ensures results + Repeat(true, n) + [true] == results + Repeat(true, n + 1)
  {
  }

  lemma {:induction false} LastResult(results: seq<bool>, x: bool, y: bool)
    requires results + [x] == results + [y]
    ensures x == y
  {
    assert (results + [x])[|results|] == x && (results + [y])[|results|] == y;
  }

  lemma {:induction false} LastRound(unpack: Unpack, start: State, s: State, events: seq<SwapEvent>)
    requires Round(unpack, start, s, events, false)
    ensures events == Decoded(unpack, start.buffer) && s.yielded == start.yielded + events
    ensures s.returned == start.returned + Repeat(true, |start.buffer|) + [false]
    ensures s.buffer == [] && s.fail.None?
  {
    assert |events| == |start.buffer|;
    assert start.buffer[..|start.buffer|] == start.buffer;
  }

  /** One more call inside the loop. */
  method NextInLoop(it: EventEmitterSwapIterator, ghost start: State, ghost events: seq<SwapEvent>, preferEnd: bool)
    returns (more: bool)
    requires Round(it.unpack, start, it.Now(), events, true)
    requires forall log | log in start.buffer :: Decodes(it.unpack, log)
    modifies it
    ensures Round(it.unpack, start, it.Now(), events + [old(it.event.value)], more)
    ensures more ==> |it.logs| < |old(it.logs)|
  {
    ghost var s := it.Now();
    NextRound(it.unpack, start, s, events, preferEnd);
    more := it.Next(Quiet(preferEnd));
    LastResult(s.returned, more, s.buffer != []);
  }

  /** `for it.Next() { ... it.Event ... }` after a clean end: whichever case the select takes in the i-th
      call, the loop stops after exactly one round for each buffered log, with the events of these logs
      and no error. */
  method CollectAll(it: EventEmitterSwapIterator, choose: nat -> bool) returns (events: seq<SwapEvent>)
    requires it.subEnd == Closed && it.fail.None?
    requires forall log | log in it.logs :: Decodes(it.unpack, log)
    modifies it
    ensures events == Decoded(it.unpack, old(it.logs))
    ensures it.returned == old(it.returned) + Repeat(true, |old(it.logs)|) + [false]
    ensures it.logs == [] && it.fail.None? && it.yielded == old(it.yielded) + events
  {
    ghost var start := it.Now();
    FirstRound(it.unpack, start, choose(0));
    events := [];
    var more := it.Next(Quiet(choose(0)));
    LastResult(start.returned, more, start.buffer != []);
    while more
      invariant Round(it.unpack, start, it.Now(), events, more)
      decreases more, |it.logs|
    {
      var event := it.event.value;
      more := NextInLoop(it, start, events, choose(|events| + 1));
      events := events + [event];
    }
    LastRound(it.unpack, start, it.Now(), events);
  }

  /** A subscription that fails with logs still waiting, or with none: the caller who has had the end taken
      is told false and finds the subscription's own error. */
  method NextThenError(it: EventEmitterSwapIterator) returns (more: bool, err: Option<GoError>)
    requires it.fail.None? && !it.done && it.subEnd.Failed?
    modifies it
    ensures !more && err == Some(old(it.subEnd).error)
  {
    more := it.Next(Quiet(true));
    err := it.Error();
  }
}
