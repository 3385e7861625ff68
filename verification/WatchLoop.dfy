/** The forwarding loop of WatchSwap in protocol/bindings/eventemitter.go. `produced` are the logs the
    subscription delivers, in order; the ticks say which case each select takes, one tick a select, so
    every finite stretch of every run is a sequence of ticks and a longer run has more of them. */
module WatchLoop {
  import opened Wrappers
  import opened Subscription

  /** The outer select takes a log, an error or the quit signal; the inner one has the sink accept the
      event instead of taking a log. A nil error comes from a subscription that ended cleanly. */
  datatype Tick = TakesLog | Accepts | SubError(error: Option<GoError>) | Quits

  datatype Outcome = Exited(error: Option<GoError>) | Waiting

  /** How the loop stands after the ticks, with no reference to the loop: the longest run of logs that
      were taken, decode and were accepted has been forwarded, and the ticks behind it say whether one
      more log was taken and whether the loop is left. A tick that is no case of the select, or takes a
      log that is never produced, does not happen: the select waits. */
  predicate Stands(unpack: Unpack, produced: seq<Log>, ticks: seq<Tick>, sink: seq<SwapEvent>, taken: nat,
                   outcome: Outcome)
  {
    var n := |sink|;
    && n <= |produced| && 2 * n <= |ticks|
    && (forall i | 0 <= i < n ::
          Decodes(unpack, produced[i]) && ticks[2 * i] == TakesLog && ticks[2 * i + 1] == Accepts)
    && sink == Decoded(unpack, produced[..n])
    && if 2 * n == |ticks| then taken == n && outcome == Waiting
       else
         match ticks[2 * n]
         case SubError(error) => taken == n && outcome == Exited(error)
         case Quits => taken == n && outcome == Exited(None)
         case Accepts => taken == n && outcome == Waiting
         case TakesLog =>
           if n == |produced| then taken == n && outcome == Waiting
           else
             && taken == n + 1
             && if !Decodes(unpack, produced[n]) then outcome == Exited(unpack(produced[n]).1)
                else if 2 * n + 1 == |ticks| then outcome == Waiting
                else
                  match ticks[2 * n + 1]
                  case Accepts => false
                  case SubError(error) => outcome == Exited(error)
                  case Quits => outcome == Exited(None)
                  case TakesLog => outcome == Waiting
  }

  /** The sink has the in-order decodings of a prefix of the logs, of all the logs taken but at most one;
      that one does not decode or was not accepted. */
  method WatchSwap(unpack: Unpack, produced: seq<Log>, ticks: seq<Tick>)
    returns (sink: seq<SwapEvent>, taken: nat, outcome: Outcome, unsubscribed: bool)
    ensures Stands(unpack, produced, ticks, sink, taken, outcome)
    ensures unsubscribed <==> outcome.Exited?
    ensures |sink| <= taken <= |sink| + 1 && taken <= |produced| && sink == Decoded(unpack, produced[..|sink|])
    ensures taken > |sink| && Decodes(unpack, produced[|sink|]) ==>
              |ticks| == 2 * |sink| + 1 || ticks[2 * |sink| + 1] != Accepts
    // the loop is left with the error of the subscription, of the log, or without one
    ensures var n := 2 * |sink|;
            && (n < |ticks| && ticks[n].SubError? ==> outcome == Exited(ticks[n].error))
            && (n < |ticks| && ticks[n].Quits? ==> outcome == Exited(None))
            && (taken > |sink| && !Decodes(unpack, produced[|sink|]) ==>
                  outcome == Exited(unpack(produced[|sink|]).1))
            && (taken > |sink| && Decodes(unpack, produced[|sink|]) && n + 1 < |ticks| ==>
                  && (ticks[n + 1].SubError? ==> outcome == Exited(ticks[n + 1].error))
                  && (ticks[n + 1].Quits? ==> outcome == Exited(None)))
  {
    sink, taken, outcome, unsubscribed := [], 0, Waiting, false;
    var t := 0;
    while t < |ticks|
      invariant taken == |sink| <= |produced| && t == 2 * taken && t <= |ticks|
      invariant forall i | 0 <= i < taken ::
                  Decodes(unpack, produced[i]) && ticks[2 * i] == TakesLog && ticks[2 * i + 1] == Accepts
      invariant sink == Decoded(unpack, produced[..taken])
      invariant outcome == Waiting && !unsubscribed
    {
      match ticks[t] {
        case TakesLog =>
          if taken == |produced| {
            return;
          }
          var log := produced[taken];
          taken := taken + 1;
          var (args, err) := unpack(log);
          if err.Some? {
            outcome, unsubscribed := Exited(err), true;
            return;
          }
          var event := SwapEvent(args, Some(log));
          if t + 1 == |ticks| {
            return;
          }
          match ticks[t + 1] {
            case Accepts =>
              sink := sink + [event];
            case SubError(error) =>
              outcome, unsubscribed := Exited(error), true;
              return;
            case Quits =>
              outcome, unsubscribed := Exited(None), true;
              return;
            case TakesLog =>
              return;
          }
        case SubError(error) =>
          outcome, unsubscribed := Exited(error), true;
          return;
        case Quits =>
          outcome, unsubscribed := Exited(None), true;
          return;
        case Accepts =>
          return;
      }
      t := t + 2;
    }
  }

  /** Runs over the same logs agree: whatever the selects do, one sink is a prefix of the other; and as a
      run goes on its sink only grows, not at all once the loop has been left. */
  lemma {:induction false} SinksAgree(unpack: Unpack, produced: seq<Log>, ticks: seq<Tick>, sink: seq<SwapEvent>,
                                      taken: nat, outcome: Outcome, ticks': seq<Tick>, sink': seq<SwapEvent>,
                                      taken': nat, outcome': Outcome)
    requires Stands(unpack, produced, ticks, sink, taken, outcome)
    requires Stands(unpack, produced, ticks', sink', taken', outcome')
    ensures sink <= sink' || sink' <= sink
    ensures ticks <= ticks' ==> sink <= sink' && (outcome.Exited? ==> sink' == sink && outcome' == outcome)
  {
    var n, m := |sink|, |sink'|;
    var k := if n < m then n else m;
    assert forall i | 0 <= i < k :: sink[i] == sink'[i];
    if ticks <= ticks' {
      assert forall i | 0 <= i < |ticks| :: ticks'[i] == ticks[i];
    }
  }

  /** If every log decodes and the sink accepts each time, everything is forwarded. */
  lemma {:induction false} AllForwarded(unpack: Unpack, produced: seq<Log>, ticks: seq<Tick>, sink: seq<SwapEvent>,
                                        taken: nat, outcome: Outcome)
    requires Stands(unpack, produced, ticks, sink, taken, outcome)
    requires forall i | 0 <= i < |produced| :: Decodes(unpack, produced[i])
    requires |ticks| >= 2 * |produced|
    requires forall i | 0 <= i < |produced| :: ticks[2 * i] == TakesLog && ticks[2 * i + 1] == Accepts
    ensures sink == Decoded(unpack, produced)
  {
    assert produced[..|produced|] == produced;
  }
}
