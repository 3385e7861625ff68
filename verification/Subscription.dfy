/** The log iterator of protocol/bindings/eventemitter.go as a system of two parties: a producer that
    sends logs into a channel and ends the subscription, and a consumer inside or outside Next. A step
    is one channel operation, so every interleaving is a sequence of actions. */
module Subscription {
  import opened Wrappers

  type GoError = string

  datatype Log = Log(address: string, topics: seq<string>, data: string, blockNumber: nat, txHash: string, index: nat)

  datatype SwapArgs = SwapArgs(poolId: string, sender: string, isBuy: bool, amountIn: int, amountOut: int,
                               fee: int, price: int, timestamp: int, blockNumber: int)

  /** raw is None in an event that UnpackLog has failed on. */
  datatype SwapEvent = SwapEvent(args: SwapArgs, raw: Option<Log>)

  /** UnpackLog: what it leaves in the event, and its error. */
  type Unpack = Log -> (SwapArgs, Option<GoError>)

  /** sub.Err(): nothing to receive yet, an error with the channel closed behind it, or closed. */
  datatype End = Running | Failed(error: GoError) | Closed

  /** Where the consumer is: outside Next, at its select, or at the select with a default. */
  datatype Place = Outside | Selecting | Draining

  datatype State = State(
    event: Option<SwapEvent>, done: bool, fail: Option<GoError>, place: Place,
    buffer: seq<Log>, end: End,
    // what has happened so far; finished is the error that ended the subscription, if one did
    finished: Option<GoError>, sent: seq<Log>, received: seq<Log>, yielded: seq<SwapEvent>, returned: seq<bool>)

  const START := State(None, false, None, Outside, [], Running, None, [], [], [], [])

  /** Steps of the environment: a log is sent, the producer finishes, the iterator is closed. */
  datatype Outer = Send(log: Log) | Finish(error: Option<GoError>) | Close

  datatype Action = Env(outer: Outer) | Call | TakeLog | TakeEnd | Drain

  function Disturb(s: State, outer: Outer): State {
    match outer
    case Send(log) => s.(buffer := s.buffer + [log], sent := s.sent + [log])
    case Finish(error) =>
      if !s.end.Running? then s
      else s.(end := if error.Some? then Failed(error.value) else Closed, finished := error)
    case Close => if s.end.Running? then s.(end := Closed) else s
  }

  /** Next returns. */
  function Return(s: State, more: bool): State {
    s.(place := Outside, returned := s.returned + [more])
  }

  /** A log has been received: unpack it into a new event. */
  function Deliver(unpack: Unpack, s: State): State
    requires s.buffer != []
  {
    var log := s.buffer[0];
    var (args, error) := unpack(log);
    var t := s.(buffer := s.buffer[1..], received := s.received + [log]);
    if error.Some? then
      Return(t.(event := Some(SwapEvent(args, None)), fail := error), false)
    else
      var event := SwapEvent(args, Some(log));
      Return(t.(event := Some(event), yielded := s.yielded + [event]), true)
  }

  predicate Enabled(s: State, a: Action) {
    match a
    case Env(_) => true
    case Call => s.place == Outside
    case TakeLog => s.place == Selecting && s.buffer != []
    case TakeEnd => s.place == Selecting && !s.end.Running?
    case Drain => s.place == Draining
  }

  function Step(unpack: Unpack, s: State, a: Action): State
    requires Enabled(s, a)
  {
    match a
    case Env(outer) => Disturb(s, outer)
    case Call =>
      if s.fail.Some? then Return(s, false)
      else s.(place := if s.done then Draining else Selecting)
    case TakeLog => Deliver(unpack, s)
    case TakeEnd =>
      var t := s.(done := true, end := Closed, fail := if s.end.Failed? then Some(s.end.error) else None);
      if t.fail.Some? then Return(t, false) else t.(place := Draining)
    case Drain =>
      if s.buffer == [] then Return(s, false) else Deliver(unpack, s)
  }

  /** None if some action is not enabled when its turn comes. */
  function Run(unpack: Unpack, s: State, actions: seq<Action>): Option<State> {
    if actions == [] then Some(s)
    else
      var mid :- Run(unpack, s, actions[..|actions| - 1]);
      var last := actions[|actions| - 1];
      if Enabled(mid, last) then Some(Step(unpack, mid, last)) else None
  }

  // ---------- every run ----------

  predicate Decodes(unpack: Unpack, log: Log) {
    unpack(log).1.None?
  }

  function Decoded(unpack: Unpack, logs: seq<Log>): (events: seq<SwapEvent>)
    ensures |events| == |logs|
    ensures forall i | 0 <= i < |logs| :: events[i] == SwapEvent(unpack(logs[i]).0, Some(logs[i]))
  {
    seq(|logs|, i requires 0 <= i < |logs| => SwapEvent(unpack(logs[i]).0, Some(logs[i])))
  }

  function Trues(returned: seq<bool>): nat {
    if returned == [] then 0
    else Trues(returned[..|returned| - 1]) + if returned[|returned| - 1] then 1 else 0
  }

  /** Nothing is lost, reordered or made up: what was sent is what was received and what is waiting;
      what was yielded are the events of the received logs, one for each true result, but for the last
      received log if that did not decode and stopped the iterator. */
  ghost predicate Faithful(unpack: Unpack, s: State) {
    var n := |s.yielded|;
    && s.sent == s.received + s.buffer
    && n <= |s.received| <= n + 1
    && s.yielded == Decoded(unpack, s.received[..n])
    && (forall i | 0 <= i < n :: Decodes(unpack, s.received[i]))
    && Trues(s.returned) == n
    && (|s.received| == n ==> s.event == if n == 0 then None else Some(s.yielded[n - 1]))
    && (|s.received| == n + 1 ==>
          s.fail.Some? && s.fail == unpack(s.received[n]).1 &&
          s.event == Some(SwapEvent(unpack(s.received[n]).0, None)))
    && (s.place == Selecting ==> !s.done && s.fail.None?)
    && (s.place == Draining ==> s.done && s.fail.None?)
    && (s.done ==> !s.end.Running?)
    && ErrorKept(s)
  }

  /** The error that ended the subscription waits in its channel until the iterator takes it; then it is
      the iterator's, unless a log failed to decode behind a clean end. */
  predicate ErrorKept(s: State) {
    && (s.end.Running? ==> s.finished.None?)
    && (s.end.Failed? ==> s.finished == Some(s.end.error) && !s.done)
    && (s.end == Closed && !s.done ==> s.finished.None?)
    && (s.done && s.finished.Some? ==> s.fail == s.finished)
    && (|s.received| == |s.yielded| ==> s.fail == if s.done then s.finished else None)
    && (false in s.returned ==> s.done || s.fail.Some?)
  }

  lemma {:induction false} TruesSnoc(returned: seq<bool>, more: bool)
    ensures Trues(returned + [more]) == Trues(returned) + if more then 1 else 0
  {
    assert (returned + [more])[..|returned|] == returned;
  }

  lemma {:induction false} DeliverGood(unpack: Unpack, s: State)
    requires Faithful(unpack, s) && s.fail.None? && s.buffer != [] && Decodes(unpack, s.buffer[0])
    ensures Faithful(unpack, Deliver(unpack, s))
  {
    var t := Deliver(unpack, s);
    TruesSnoc(s.returned, true);
    assert s.received[..|s.yielded|] == s.received;
    assert t.received[..|t.yielded|] == t.received;
    assert t.sent == t.received + t.buffer;
    assert t.yielded == Decoded(unpack, t.received);
  }

  lemma {:induction false} DeliverBad(unpack: Unpack, s: State)
    requires Faithful(unpack, s) && s.fail.None? && s.buffer != [] && !Decodes(unpack, s.buffer[0])
    ensures Faithful(unpack, Deliver(unpack, s))
  {
    var t := Deliver(unpack, s);
    TruesSnoc(s.returned, false);
    assert t.received[..|s.yielded|] == s.received[..|s.yielded|];
    assert t.sent == t.received + t.buffer;
  }

  lemma {:induction false} DisturbFaithful(unpack: Unpack, s: State, outer: Outer)
    requires Faithful(unpack, s)
    ensures Faithful(unpack, Disturb(s, outer))
  {
  }

  lemma {:induction false} StepFaithful(unpack: Unpack, s: State, a: Action)
    requires Faithful(unpack, s) && Enabled(s, a)
    ensures Faithful(unpack, Step(unpack, s, a))
  {
    TruesSnoc(s.returned, false);
    if a.Env? {
      DisturbFaithful(unpack, s, a.outer);
    } else if a.TakeLog? || (a.Drain? && s.buffer != []) {
      if Decodes(unpack, s.buffer[0]) {
        DeliverGood(unpack, s);
      } else {
        DeliverBad(unpack, s);
      }
    }
  }

  lemma {:induction false} RunFaithful(unpack: Unpack, s: State, actions: seq<Action>)
    requires Faithful(unpack, s) && Run(unpack, s, actions).Some?
    ensures Faithful(unpack, Run(unpack, s, actions).value)
  {
    if actions != [] {
      var init := actions[..|actions| - 1];
      RunFaithful(unpack, s, init);
      StepFaithful(unpack, Run(unpack, s, init).value, actions[|actions| - 1]);
    }
  }

  /** In every run, with any interleaving and any end, the events yielded are those of a prefix of the
      logs sent, in order, each with its own log as Raw. */
  lemma {:induction false} YieldsPrefix(unpack: Unpack, actions: seq<Action>)
    requires Run(unpack, START, actions).Some?
    ensures var s := Run(unpack, START, actions).value;
            var n := |s.yielded|;
            && n <= |s.sent|
            && s.yielded == Decoded(unpack, s.sent[..n])
            && n == Trues(s.returned)
            && (forall i | 0 <= i < n :: s.yielded[i].raw == Some(s.sent[i]) && Decodes(unpack, s.sent[i]))
  {
    RunFaithful(unpack, START, actions);
    var s := Run(unpack, START, actions).value;
    assert s.sent[..|s.yielded|] == s.received[..|s.yielded|];
  }

  /** The logs handed to the channel by the producer, in order. */
  function Sends(actions: seq<Action>): seq<Log> {
    if actions == [] then []
    else
      var last := actions[|actions| - 1];
      Sends(actions[..|actions| - 1]) + if last.Env? && last.outer.Send? then [last.outer.log] else []
  }

  /** `sent` is what the producer has sent. */
  lemma {:induction false} SentLogs(unpack: Unpack, actions: seq<Action>)
    requires Run(unpack, START, actions).Some?
    ensures Run(unpack, START, actions).value.sent == Sends(actions)
  {
    if actions != [] {
      SentLogs(unpack, actions[..|actions| - 1]);
    }
  }

  // ---------- which error is reported ----------

  /** The producer finishes, or the iterator is closed. */
  predicate Ends(a: Action) {
    a.Env? && (a.outer.Finish? || a.outer.Close?)
  }

  /** The first action that ends the subscription is the one that counts. */
  predicate FirstEnd(actions: seq<Action>, k: int) {
    0 <= k < |actions| && Ends(actions[k]) && forall i | 0 <= i < k :: !Ends(actions[i])
  }

  function ErrorOf(end: Action): Option<GoError>
    requires Ends(end)
  {
    if end.outer.Finish? then end.outer.error else None
  }

  lemma {:induction false} StepEnd(unpack: Unpack, s: State, a: Action)
    requires Enabled(s, a)
    ensures var t := Step(unpack, s, a);
            && (t.end.Running? <==> s.end.Running? && !Ends(a))
            && t.finished == if s.end.Running? && Ends(a) then (if a.outer.Finish? then a.outer.error else s.finished)
                             else s.finished
  {
  }

  ghost predicate NeverEnds(actions: seq<Action>) {
    forall i | 0 <= i < |actions| :: !Ends(actions[i])
  }

  /** Either nothing has ended the subscription, or the first end has. */
  ghost predicate EndedBy(s: State, actions: seq<Action>) {
    if s.end.Running? then NeverEnds(actions) && s.finished.None?
    else exists k :: FirstEnd(actions, k) && s.finished == ErrorOf(actions[k])
  }

  lemma {:induction false} EndedBySnoc(unpack: Unpack, s: State, init: seq<Action>, a: Action)
    requires EndedBy(s, init) && Enabled(s, a)
    ensures EndedBy(Step(unpack, s, a), init + [a])
  {
    StepEnd(unpack, s, a);
    var actions := init + [a];
    assert actions[|init|] == a && forall i | 0 <= i < |init| :: actions[i] == init[i];
    if !s.end.Running? {
      var k :| FirstEnd(init, k) && s.finished == ErrorOf(init[k]);
      assert FirstEnd(actions, k);
    } else if Ends(a) {
      assert FirstEnd(actions, |init|);
    }
  }

  lemma {:induction false} RunEndedBy(unpack: Unpack, actions: seq<Action>)
    requires Run(unpack, START, actions).Some?
    ensures EndedBy(Run(unpack, START, actions).value, actions)
  {
    if actions != [] {
      var n := |actions| - 1;
      RunEndedBy(unpack, actions[..n]);
      EndedBySnoc(unpack, Run(unpack, START, actions[..n]).value, actions[..n], actions[n]);
      assert actions == actions[..n] + [actions[n]];
    }
  }

  lemma {:induction false} FinishedByFirstEnd(unpack: Unpack, actions: seq<Action>, k: int)
    requires Run(unpack, START, actions).Some? && FirstEnd(actions, k)
    ensures var s := Run(unpack, START, actions).value;
            !s.end.Running? && s.finished == ErrorOf(actions[k])
  {
    RunEndedBy(unpack, actions);
    var s := Run(unpack, START, actions).value;
    assert Ends(actions[k]);
    var j :| FirstEnd(actions, j) && s.finished == ErrorOf(actions[j]);
    assert j == k;
  }

  /** In every run, when the iterator has taken the end of the subscription: if the producer finished with
      an error, fail is exactly that error; and as long as all received logs decode, fail is exactly what
      ended the subscription, and nil before the end was taken, which it was if a call returned false. */
  lemma {:induction false} ErrorReported(unpack: Unpack, actions: seq<Action>, k: int)
    requires Run(unpack, START, actions).Some? && FirstEnd(actions, k)
    ensures var s := Run(unpack, START, actions).value;
            && (s.done && actions[k].outer.Finish? && actions[k].outer.error.Some? ==>
                  s.fail == actions[k].outer.error)
            && ((forall log | log in s.received :: Decodes(unpack, log)) ==>
                  && s.fail == (if s.done && actions[k].outer.Finish? then actions[k].outer.error else None)
                  && (false in s.returned ==> s.done))
  {
    FinishedByFirstEnd(unpack, actions, k);
    RunFaithful(unpack, START, actions);
    AllDecodeNoneLost(unpack, Run(unpack, START, actions).value);
  }

  /** Without an end there is no error but that of a log, and no other reason to return false. */
  lemma {:induction false} NoEndNoError(unpack: Unpack, actions: seq<Action>)
    requires Run(unpack, START, actions).Some? && NeverEnds(actions)
    ensures var s := Run(unpack, START, actions).value;
            && !s.done
            && ((forall log | log in s.received :: Decodes(unpack, log)) ==> s.fail.None? && false !in s.returned)
  {
    RunEndedBy(unpack, actions);
    RunFaithful(unpack, START, actions);
    AllDecodeNoneLost(unpack, Run(unpack, START, actions).value);
  }

  lemma {:induction false} AllDecodeNoneLost(unpack: Unpack, s: State)
    requires Faithful(unpack, s)
    ensures (forall log | log in s.received :: Decodes(unpack, log)) ==> |s.received| == |s.yielded|
  {
    assert |s.received| == |s.yielded| + 1 ==> s.received[|s.yielded|] in s.received;
  }

  // ---------- failure is final ----------

  ghost predicate AllFalse(returned: seq<bool>) {
    forall i | 0 <= i < |returned| :: !returned[i]
  }

  /** Once fail is set, later calls of Next return false, consume nothing and change neither the event
      nor the error, whatever the environment does. */
  lemma {:induction false} FailureIsFinal(unpack: Unpack, s: State, actions: seq<Action>)
    requires Faithful(unpack, s) && s.fail.Some?
    requires Run(unpack, s, actions).Some?
    ensures var t := Run(unpack, s, actions).value;
            && t.fail == s.fail && t.event == s.event && t.received == s.received && t.yielded == s.yielded
            && s.returned <= t.returned && AllFalse(t.returned[|s.returned|..])
            && t.place == Outside
  {
    if actions != [] {
      FailureIsFinal(unpack, s, actions[..|actions| - 1]);
    }
  }

  // ---------- a clean end ----------

  /** The rule the producer keeps: no log is sent after the subscription has ended; and it ends cleanly. */
  ghost predicate Orderly(unpack: Unpack, s: State, actions: seq<Action>) {
    Run(unpack, s, actions).Some? &&
    forall k | 0 <= k < |actions| ::
      && (actions[k].Env? && actions[k].outer.Send? ==>
            Run(unpack, s, actions[..k]).Some? && Run(unpack, s, actions[..k]).value.end.Running?)
      && (actions[k].Env? && actions[k].outer.Finish? ==> actions[k].outer.error.None?)
  }

  function Repeat(more: bool, n: nat): (r: seq<bool>)
    ensures |r| == n && forall i | 0 <= i < n :: r[i] == more
  {
    seq(n, _ => more)
  }

  /** True results come first; after a false one nothing is left and nothing more will come. */
  ghost predicate Complete(s: State) {
    var n := |s.yielded|;
    && s.fail.None? && !s.end.Failed?
    && n <= |s.returned|
    && s.returned == Repeat(true, n) + Repeat(false, |s.returned| - n)
    && (|s.returned| > n ==> s.done && s.buffer == [])
  }

  lemma {:induction false} StepComplete(unpack: Unpack, s: State, a: Action)
    requires Faithful(unpack, s) && Complete(s) && Enabled(s, a)
    requires forall log | log in s.buffer :: Decodes(unpack, log)
    requires a.Env? && a.outer.Send? ==> s.end.Running?
    requires a.Env? && a.outer.Finish? ==> a.outer.error.None?
    ensures Complete(Step(unpack, s, a))
  {
    var n := |s.yielded|;
    var k := |s.returned| - n;
    if (a.TakeLog? || a.Drain?) && s.buffer != [] {
      assert s.buffer[0] in s.buffer && k == 0;
      assert Repeat(true, n) + Repeat(false, 0) + [true] == Repeat(true, n + 1) + Repeat(false, 0);
    } else if a.Drain? {
      assert Repeat(true, n) + Repeat(false, k) + [false] == Repeat(true, n) + Repeat(false, k + 1);
    }
  }

  lemma {:induction false} OrderlyInit(unpack: Unpack, s: State, actions: seq<Action>)
    requires Orderly(unpack, s, actions) && actions != []
    ensures Orderly(unpack, s, actions[..|actions| - 1])
  {
    var init := actions[..|actions| - 1];
    forall k | 0 <= k < |init| ensures init[..k] == actions[..k] {
    }
  }

  lemma {:induction false} RunComplete(unpack: Unpack, actions: seq<Action>)
    requires Orderly(unpack, START, actions)
    requires forall log | log in Run(unpack, START, actions).value.sent :: Decodes(unpack, log)
    ensures Complete(Run(unpack, START, actions).value)
  {
    if actions == [] {
      assert Repeat(true, 0) + Repeat(false, 0) == [];
    } else {
      var n := |actions| - 1;
      var init := actions[..n];
      OrderlyInit(unpack, START, actions);
      var s := Run(unpack, START, init).value;
      var t := Run(unpack, START, actions).value;
      RunFaithful(unpack, START, init);
      assert t == Step(unpack, s, actions[n]);
      assert s.sent <= t.sent;
      forall log | log in s.sent ensures Decodes(unpack, log) {
        var i :| 0 <= i < |s.sent| && s.sent[i] == log;
        assert t.sent[i] == log;
      }
      RunComplete(unpack, init);
      assert forall log | log in s.buffer :: log in s.sent;
      StepComplete(unpack, s, actions[n]);
    }
  }

  /** Exactly-once delivery. If the producer keeps its rule, ends cleanly and every log decodes, then in
      every interleaving, and whichever way each select decides, the results of Next are some number of
      trues and then only falses; once there is a false, every log sent has been yielded, in order,
      with one true for each, and there is no error. */
  lemma {:induction false} DeliversExactly(unpack: Unpack, actions: seq<Action>)
    requires Orderly(unpack, START, actions)
    requires forall log | log in Run(unpack, START, actions).value.sent :: Decodes(unpack, log)
    ensures var s := Run(unpack, START, actions).value;
            && s.fail.None?
            && |s.yielded| <= |s.returned|
            && s.returned == Repeat(true, |s.yielded|) + Repeat(false, |s.returned| - |s.yielded|)
            && (false in s.returned ==> s.yielded == Decoded(unpack, s.sent) && |s.yielded| == |s.sent|)
  {
    RunComplete(unpack, actions);
    RunFaithful(unpack, START, actions);
    var s := Run(unpack, START, actions).value;
    if false in s.returned {
      assert s.received[..|s.yielded|] == s.received == s.sent;
    }
  }

  /** Two consumers of the same logs that have both seen the end have seen the same events. */
  lemma {:induction false} InterleavingDoesNotMatter(unpack: Unpack, a: seq<Action>, b: seq<Action>)
    requires Orderly(unpack, START, a) && Orderly(unpack, START, b)
    requires Run(unpack, START, a).value.sent == Run(unpack, START, b).value.sent
    requires forall log | log in Run(unpack, START, a).value.sent :: Decodes(unpack, log)
    requires false in Run(unpack, START, a).value.returned && false in Run(unpack, START, b).value.returned
    ensures Run(unpack, START, a).value.yielded == Run(unpack, START, b).value.yielded
  {
    DeliversExactly(unpack, a);
    DeliversExactly(unpack, b);
  }

  /** The rule is needed: a log sent after the end is reported as no more events. */
  lemma {:induction false} LateLogMissed(unpack: Unpack, log: Log)
    requires Decodes(unpack, log)
    ensures var actions := [Env(Finish(None)), Call, TakeEnd, Drain, Env(Send(log))];
            && Run(unpack, START, actions).Some?
            && Run(unpack, START, actions).value.returned == [false]
            && Run(unpack, START, actions).value.sent == [log]
            && Run(unpack, START, actions).value.yielded == []
  {
    var late := [Env(Send(log))];
    var s1 := Step(unpack, START, Env(Finish(None)));
    var s2 := Step(unpack, s1, Call);
    var s3 := Step(unpack, s2, TakeEnd);
    var s4 := Step(unpack, s3, Drain);
    assert [Env(Finish(None)), Call, TakeEnd, Drain, Env(Send(log))] ==
           [Env(Finish(None))] + ([Call] + ([TakeEnd] + ([Drain] + (late + []))));
    RunCons(unpack, START, Env(Finish(None)), [Call] + ([TakeEnd] + ([Drain] + (late + []))));
    RunCons(unpack, s1, Call, [TakeEnd] + ([Drain] + (late + [])));
    RunCons(unpack, s2, TakeEnd, [Drain] + (late + []));
    RunCons(unpack, s3, Drain, late + []);
    RunCons(unpack, s4, Env(Send(log)), []);
  }

  lemma {:induction false} RunCons(unpack: Unpack, s: State, a: Action, actions: seq<Action>)
    ensures Run(unpack, s, [a] + actions) ==
            if Enabled(s, a) then Run(unpack, Step(unpack, s, a), actions) else None
  {
    if actions == [] {
      assert [a] + actions == [a] && [a][..0] == [];
    } else {
      var init := actions[..|actions| - 1];
      RunCons(unpack, s, a, init);
      assert ([a] + actions)[..|actions|] == [a] + init;
    }
  }

  lemma {:induction false} RunConcat(unpack: Unpack, s: State, a: seq<Action>, b: seq<Action>)
    ensures Run(unpack, s, a + b) ==
            if Run(unpack, s, a).Some? then Run(unpack, Run(unpack, s, a).value, b) else None
  {
    if b == [] {
      assert a + b == a;
    } else {
      RunConcat(unpack, s, a, b[..|b| - 1]);
      assert (a + b)[..|a + b| - 1] == a + b[..|b| - 1];
    }
  }

  // ---------- Next comes back ----------

  function StepsLeft(place: Place): nat {
    match place
    case Outside => 0
    case Draining => 1
    case Selecting => 2
  }

  /** The operations the consumer itself performs. */
  function ConsumerSteps(actions: seq<Action>): nat {
    if actions == [] then 0
    else ConsumerSteps(actions[..|actions| - 1]) + if actions[|actions| - 1].Env? then 0 else 1
  }

  lemma {:induction false} StepShort(unpack: Unpack, s: State, a: Action)
    requires Enabled(s, a) && a != Call
    ensures (if a.Env? then 0 else 1) + StepsLeft(Step(unpack, s, a).place) <= StepsLeft(s.place)
  {
  }

  /** A call of Next takes at most two channel operations, so it recurses at most once, whatever the
      environment does meanwhile; and it is never stuck once a log waits or the subscription has ended. */
  lemma {:induction false} CallsAreShort(unpack: Unpack, s: State, actions: seq<Action>)
    requires Run(unpack, s, actions).Some? && Call !in actions
    ensures var t := Run(unpack, s, actions).value;
            && ConsumerSteps(actions) + StepsLeft(t.place) <= StepsLeft(s.place)
            && (t.place != Outside && (t.place == Draining || t.buffer != [] || !t.end.Running?) ==>
                  Enabled(t, TakeLog) || Enabled(t, TakeEnd) || Enabled(t, Drain))
  {
    if actions != [] {
      var n := |actions| - 1;
      assert actions[n] in actions && forall a | a in actions[..n] :: a in actions;
      CallsAreShort(unpack, s, actions[..n]);
      StepShort(unpack, Run(unpack, s, actions[..n]).value, actions[n]);
    }
  }
}
