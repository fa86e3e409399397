/** Which streams the service tells to end: over every run, in terms of its events alone. */
module StreamEnding {
  import opened StreamProtocol
  import opened StreamTheorems
  import opened StreamPolicies

  // --- What the events say ---

  /** Where new connections are rejected: the stream that found the device free and has not closed since. */
  function Holder(trace: seq<Event>, a: nat, d: string): seq<string> {
    if trace == [] then []
    else
      var e := trace[|trace| - 1];
      var held := Holder(trace[..|trace| - 1], a, d);
      if OpensAt(e, a, d) && held == [] then [e.stream]
      else if held != [] && e == Close(held[0]) then []
      else held
  }

  /** The handler of this open event throws: the device is taken, and the plain error reports just that. */
  predicate Throws(actions: seq<Action>, codes: Codes, before: seq<Event>, e: Event) {
    && e.Open? && UsesChannel(actions, e.action, e.device) && Holder(before, e.action, e.device) != []
    && actions[e.action].policy == RejectNew && codes.plainError == SUBSCRIPTIONS_EXISTS
  }

  /** The stream of this open event is turned away: the device is taken, and the error reports something else. */
  predicate TurnedAway(actions: seq<Action>, codes: Codes, before: seq<Event>, e: Event) {
    && e.Open? && UsesChannel(actions, e.action, e.device) && Holder(before, e.action, e.device) != []
    && (|| (actions[e.action].policy == RejectNew && codes.plainError != SUBSCRIPTIONS_EXISTS)
        || (actions[e.action].policy == ClosePrevious && codes.badRequest != SUBSCRIPTIONS_EXISTS))
  }

  /** Opening a stream of this device ends the one before it. */
  predicate Supersedes(actions: seq<Action>, codes: Codes, a: nat, d: string) {
    UsesChannel(actions, a, d) && actions[a].policy == ClosePrevious && codes.badRequest == SUBSCRIPTIONS_EXISTS
  }

  /** The next stream opened for the device is event `j`, and the stream of event `i` is still open then. */
  predicate NextOpen(trace: seq<Event>, i: nat, j: nat)
    requires i < j < |trace| && trace[i].Open?
  {
    && OpensAt(trace[j], trace[i].action, trace[i].device)
    && (forall k :: i < k < j ==> !OpensAt(trace[k], trace[i].action, trace[i].device))
    && !ClosedIn(trace[..j], trace[i].stream)
  }

  ghost predicate SupersededAt(actions: seq<Action>, codes: Codes, trace: seq<Event>, i: nat)
    requires i < |trace| && trace[i].Open?
  {
    && Supersedes(actions, codes, trace[i].action, trace[i].device)
    && exists j: nat :: i < j < |trace| && NextOpen(trace, i, j)
  }

  /**
   * `stream` was opened, and its open callback failed without the handler throwing before, or it
   * was turned away, or the next stream of its device superseded it.
   */
  ghost predicate ToldToEnd(actions: seq<Action>, codes: Codes, trace: seq<Event>, stream: string) {
    exists i: nat :: i < |trace| && Opens(trace[i], stream) && EndsAt(actions, codes, trace, i)
  }

  ghost predicate EndsAt(actions: seq<Action>, codes: Codes, trace: seq<Event>, i: nat)
    requires i < |trace| && trace[i].Open?
  {
    || (trace[i].openedFails && !Throws(actions, codes, trace[..i], trace[i]))
    || TurnedAway(actions, codes, trace[..i], trace[i])
    || SupersededAt(actions, codes, trace, i)
  }

  // --- Subscribers in terms of the events ---

  /** Where new connections are rejected the subscriber is the holder. */
  lemma {:induction false} HolderSubscribed(actions: seq<Action>, codes: Codes, trace: seq<Event>, a: nat, d: string)
    requires Valid(actions, trace) && UsesChannel(actions, a, d) && KeepsFirst(actions[a].policy, codes)
    ensures Subscribers(Run(actions, codes, trace), a, d) == Holder(trace, a, d)
    ensures |Holder(trace, a, d)| <= 1
    decreases |trace|
  {
    hide Run, Valid;
    if trace == [] {
      RunStartsEmpty(actions, codes, a, d);
    } else {
      var n := |trace| - 1;
      var before, e := trace[..n], trace[n];
      LastEvent(actions, codes, trace, a, d);
      HolderSubscribed(actions, codes, before, a, d);
      if OpensAt(e, a, d) {
        SingleSubscriber(e.stream);
      }
    }
  }

  lemma {:induction false} LastOpenedAt(trace: seq<Event>, i: nat, a: nat, d: string)
    requires i < |trace| && OpensAt(trace[i], a, d) && forall k :: i < k < |trace| ==> !OpensAt(trace[k], a, d)
    ensures LastOpened(trace, a, d) == [trace[i].stream]
  {
    if i < |trace| - 1 {
      LastOpenedAt(trace[..|trace| - 1], i, a, d);
    }
  }

  lemma {:induction false} LastOpenedStands(trace: seq<Event>, a: nat, d: string) returns (i: nat)
    requires LastOpened(trace, a, d) != []
    ensures i < |trace| && OpensAt(trace[i], a, d) && forall k :: i < k < |trace| ==> !OpensAt(trace[k], a, d)
    ensures LastOpened(trace, a, d) == [trace[i].stream]
  {
    if OpensAt(trace[|trace| - 1], a, d) {
      i := |trace| - 1;
    } else {
      i := LastOpenedStands(trace[..|trace| - 1], a, d);
    }
  }

  // --- One more event ---

  /** The streams that are told to end by one more event. */
  function NewlyEnded(actions: seq<Action>, codes: Codes, before: seq<Event>, e: Event): set<string> {
    match e
    case Close(_) => {}
    case Open(stream, a, d, fails) =>
      (if Supersedes(actions, codes, a, d) then set st | st in OpenNewest(before, a, d) else {})
      + (if TurnedAway(actions, codes, before, e)
          || (fails && !Throws(actions, codes, before, e)) then {stream} else {})
  }

  lemma {:induction false} FirstIdsAre(list: seq<Subscription>, k: nat)
    requires k <= |list|
    ensures FirstIds(list, k) == set st | st in StreamIds(list)[..k]
  {
    if k > 0 {
      FirstIdsAre(list, k - 1);
      assert StreamIds(list)[..k] == StreamIds(list)[..k - 1] + [list[k - 1].streamId];
    }
  }

  lemma EndedStep(actions: seq<Action>, codes: Codes, trace: seq<Event>)
    requires trace != [] && Valid(actions, trace)
    ensures var before := trace[..|trace| - 1];
      && Valid(actions, before)
      && Run(actions, codes, trace).ended
         == Run(actions, codes, before).ended + NewlyEnded(actions, codes, before, trace[|trace| - 1])
  {
    var n := |trace| - 1;
    var before := trace[..n];
    ValidPrefix(actions, trace, n);
    RunInvariant(actions, codes, before);
    var s := Run(actions, codes, before);
    match trace[n]
    case Close(stream) =>
      CloseEffect(actions, s, stream);
    case Open(stream, a, d, fails) =>
      FreshIsUnknown(actions, trace, s);
      OpenEffect(actions, codes, s, stream, a, d, fails);
      if UsesChannel(actions, a, d) {
        hide Valid, Inv, Accounted, OpenStream;
        EndedByOpenAre(actions, codes, before, a, d, stream);
      }
  }

  /** What opening a stream ends, in terms of the events before. */
  lemma EndedByOpenAre(actions: seq<Action>, codes: Codes, before: seq<Event>, a: nat, d: string, stream: string)
    requires Valid(actions, before) && UsesChannel(actions, a, d)
    ensures var (policy, list) := (actions[a].policy, SubsAt(Run(actions, codes, before), a, d));
      && (Supersedes(actions, codes, a, d) ==>
            EndedByOpen(policy, codes, list, stream) == set st | st in OpenNewest(before, a, d))
      && (KeepsFirst(policy, codes) ==>
            && OpenThrows(policy, codes, list)
               == (policy == RejectNew && Holder(before, a, d) != [] && codes.plainError == SUBSCRIPTIONS_EXISTS)
            && EndedByOpen(policy, codes, list, stream)
               == if Holder(before, a, d) != [] && !OpenThrows(policy, codes, list) then {stream} else {})
  {
    var policy, list := actions[a].policy, SubsAt(Run(actions, codes, before), a, d);
    SingleSubscriber(stream);
    if Supersedes(actions, codes, a, d) {
      NewestStreamSubscribed(actions, codes, before, a, d);
      FirstIdsAre(list, |list|);
      assert StreamIds(list)[..|list|] == StreamIds(list);
    } else if KeepsFirst(policy, codes) {
      HolderSubscribed(actions, codes, before, a, d);
    }
  }

  /** What was told before the last event is still told, and the last event tells the streams of `NewlyEnded`. */
  lemma ToldStep(actions: seq<Action>, codes: Codes, trace: seq<Event>, stream: string)
    requires trace != []
    ensures var (before, e) := (trace[..|trace| - 1], trace[|trace| - 1]);
      ToldToEnd(actions, codes, trace, stream) <==>
        ToldToEnd(actions, codes, before, stream) || stream in NewlyEnded(actions, codes, before, e)
  {
    var n := |trace| - 1;
    var before, e := trace[..n], trace[n];
    forall i: nat | i < n && trace[i].Open?
      ensures EndsAt(actions, codes, trace, i) <==>
              EndsAt(actions, codes, before, i)
              || (Supersedes(actions, codes, trace[i].action, trace[i].device) && NextOpen(trace, i, n))
    {
      EndsAtStep(actions, codes, trace, i);
    }
    hide EndsAt, NextOpen;
    if ToldToEnd(actions, codes, trace, stream) {
      ToldWasTold(actions, codes, trace, stream);
    }
    if ToldToEnd(actions, codes, before, stream) {
      var i: nat :| i < n && Opens(before[i], stream) && EndsAt(actions, codes, before, i);
      assert Opens(trace[i], stream) && EndsAt(actions, codes, trace, i);
    }
    if stream in NewlyEnded(actions, codes, before, e) {
      NewIsTold(actions, codes, trace, stream);
    }
  }

  lemma EndsAtStep(actions: seq<Action>, codes: Codes, trace: seq<Event>, i: nat)
    requires i < |trace| - 1 && trace[i].Open?
    ensures var n := |trace| - 1;
      EndsAt(actions, codes, trace, i) <==>
        EndsAt(actions, codes, trace[..n], i)
        || (Supersedes(actions, codes, trace[i].action, trace[i].device) && NextOpen(trace, i, n))
  {
    var n := |trace| - 1;
    var before := trace[..n];
    assert trace[..i] == before[..i];
    hide Throws, TurnedAway, Supersedes;
    forall j: nat | i < j < n
      ensures NextOpen(trace, i, j) <==> NextOpen(before, i, j)
    {
      assert trace[..j] == before[..j];
    }
    hide NextOpen;
    if SupersededAt(actions, codes, before, i) {
      var j: nat :| i < j < n && NextOpen(before, i, j);
      assert NextOpen(trace, i, j);
    }
  }

  lemma ToldWasTold(actions: seq<Action>, codes: Codes, trace: seq<Event>, stream: string)
    requires trace != [] && ToldToEnd(actions, codes, trace, stream)
    ensures var (before, e) := (trace[..|trace| - 1], trace[|trace| - 1]);
      ToldToEnd(actions, codes, before, stream) || stream in NewlyEnded(actions, codes, before, e)
  {
    var n := |trace| - 1;
    var before, e := trace[..n], trace[n];
    var i: nat :| i < |trace| && Opens(trace[i], stream) && EndsAt(actions, codes, trace, i);
    if i < n {
      EndsAtStep(actions, codes, trace, i);
      if EndsAt(actions, codes, before, i) {
        assert Opens(before[i], stream);
      } else {
        assert before[i] == trace[i];
        LastOpenedAt(before, i, trace[i].action, trace[i].device);
      }
    }
  }

  lemma NewIsTold(actions: seq<Action>, codes: Codes, trace: seq<Event>, stream: string)
    requires trace != []
    requires stream in NewlyEnded(actions, codes, trace[..|trace| - 1], trace[|trace| - 1])
    ensures ToldToEnd(actions, codes, trace, stream)
  {
    var n := |trace| - 1;
    var before, e := trace[..n], trace[n];
    if Supersedes(actions, codes, e.action, e.device) && stream in OpenNewest(before, e.action, e.device) {
      var i := LastOpenedStands(before, e.action, e.device);
      assert Opens(trace[i], stream) && NextOpen(trace, i, n);
      assert SupersededAt(actions, codes, trace, i);
      assert EndsAt(actions, codes, trace, i);
    } else {
      assert Opens(trace[n], stream) && EndsAt(actions, codes, trace, n);
    }
  }

  /**
   * Over every run, under every policy and with any codes: a stream has been told to end if and
   * only if its open callback failed without the handler having thrown, or it was turned away, or
   * it was superseded. No other stream is ever told to end.
   */
  lemma {:induction false} EndedExactly(actions: seq<Action>, codes: Codes, trace: seq<Event>, stream: string)
    requires Valid(actions, trace)
    ensures stream in Run(actions, codes, trace).ended <==> ToldToEnd(actions, codes, trace, stream)
    decreases |trace|
  {
    hide NewlyEnded, ToldToEnd, Valid;
    if trace == [] {
      NothingTold(actions, codes, stream);
    } else {
      EndedStep(actions, codes, trace);
      ToldStep(actions, codes, trace, stream);
      EndedExactly(actions, codes, trace[..|trace| - 1], stream);
    }
  }

  lemma NothingTold(actions: seq<Action>, codes: Codes, stream: string)
    ensures !ToldToEnd(actions, codes, [], stream)
    ensures stream !in Run(actions, codes, []).ended
  {
  }
}
