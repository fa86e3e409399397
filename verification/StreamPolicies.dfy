/** Whole runs of the stream protocol, policy by policy. */
module StreamPolicies {
  import opened StreamProtocol
  import opened StreamTheorems

  // --- Under every policy ---

  /**
   * In every reachable state: every subscription is of a registered stream, under its own action
   * and device, and writes to that stream; a stream is subscribed at most once; and an exclusive
   * policy admits one subscription per device. This needs nothing about the error codes.
   */
  lemma EveryRunKeepsSubscriptions(actions: seq<Action>, codes: Codes, trace: seq<Event>, a: nat, d: string, i: nat)
    requires Valid(actions, trace) && i < |SubsAt(Run(actions, codes, trace), a, d)|
    ensures var s := Run(actions, codes, trace);
      var sub := SubsAt(s, a, d)[i];
      && sub.sink == sub.streamId && sub.streamId in s.connections
      && sub.streamId in s.listeners && s.listeners[sub.streamId] == Registration(a, d)
      && (Exclusive(actions, a) ==> |SubsAt(s, a, d)| == 1)
      && forall a': nat, d', j :: 0 <= j < |SubsAt(s, a', d')| && SubsAt(s, a', d')[j].streamId == sub.streamId ==>
           a' == a && d' == d && j == i
  {
    RunInvariant(actions, codes, trace);
    var s := Run(actions, codes, trace);
    ConnectedLists(actions, s, a, d);
    forall a': nat, d', j | 0 <= j < |SubsAt(s, a', d')| && SubsAt(s, a', d')[j].streamId == SubsAt(s, a, d)[i].streamId
      ensures a' == a && d' == d && j == i
    {
      ConnectedLists(actions, s, a', d');
    }
  }

  /** Only streams with a device are ever subscribed, and only with actions that offer a channel. */
  lemma SubscribersUseChannels(actions: seq<Action>, codes: Codes, trace: seq<Event>, a: nat, d: string)
    requires Valid(actions, trace)
    ensures SubsAt(Run(actions, codes, trace), a, d) != [] ==> a < |actions| && actions[a].Channel? && d != ""
  {
    RunInvariant(actions, codes, trace);
    ConnectedLists(actions, Run(actions, codes, trace), a, d);
    var list := SubsAt(Run(actions, codes, trace), a, d);
    assert list != [] ==> list[0].sink == list[0].streamId;
  }

  /** Once every opened stream has closed, no subscription is left. */
  lemma NothingLeftWhenAllClosed(actions: seq<Action>, codes: Codes, trace: seq<Event>, a: nat, d: string)
    requires Valid(actions, trace)
    requires forall st :: OpenedIn(trace, st) ==> ClosedIn(trace, st)
    ensures SubsAt(Run(actions, codes, trace), a, d) == []
  {
    if SubsAt(Run(actions, codes, trace), a, d) != [] {
      SubscriberIsOpen(actions, codes, trace, a, d, 0);
    }
  }

  lemma SubscriberIsOpen(actions: seq<Action>, codes: Codes, trace: seq<Event>, a: nat, d: string, i: nat)
    requires Valid(actions, trace) && i < |SubsAt(Run(actions, codes, trace), a, d)|
    ensures var st := SubsAt(Run(actions, codes, trace), a, d)[i].streamId;
      OpenedIn(trace, st) && !ClosedIn(trace, st)
  {
    RunInvariant(actions, codes, trace);
    ConnectedLists(actions, Run(actions, codes, trace), a, d);
  }

  /**
   * Exactly when opening a stream throws out of its handler, so that its listeners are never
   * attached: never with the two other policies, whatever the codes; and with `RejectNew` only if
   * the plain error reports the code meant for existing subscriptions.
   */
  lemma OpenThrowsExactly(actions: seq<Action>, codes: Codes, trace: seq<Event>, stream: string, a: nat, d: string)
    requires Valid(actions, trace) && UsesChannel(actions, a, d)
    ensures var s := Run(actions, codes, trace);
      JoinChannel(actions, codes, s.(connections := s.connections + {stream}), stream, a, d).1
      <==> actions[a].policy.RejectNew? && SubsAt(s, a, d) != [] && codes.plainError == SUBSCRIPTIONS_EXISTS
  {
    RunInvariant(actions, codes, trace);
    var s := Run(actions, codes, trace);
    ConnectedLists(actions, s, a, d);
    var connected := s.(connections := s.connections + {stream});
    assert SubsAt(connected, a, d) == SubsAt(s, a, d);
    JoinEffect(actions, codes, connected, stream, a, d);
  }

  /** No run can throw out of the handler: the plain code differs, or no channel rejects new streams. */
  predicate NeverThrows(actions: seq<Action>, codes: Codes) {
    codes.plainError != SUBSCRIPTIONS_EXISTS || Channel(RejectNew) !in actions
  }

  /** Every registered stream has its close listener. */
  predicate AllWatched(s: State) {
    s.connections == s.listeners.Keys
  }

  lemma {:induction false} EveryConnectionIsWatched(actions: seq<Action>, codes: Codes, trace: seq<Event>)
    requires Valid(actions, trace) && NeverThrows(actions, codes)
    ensures AllWatched(Run(actions, codes, trace))
    decreases |trace|
  {
    if trace != [] {
      var n := |trace| - 1;
      ValidPrefix(actions, trace, n);
      EveryConnectionIsWatched(actions, codes, trace[..n]);
      RunInvariant(actions, codes, trace[..n]);
      var s := Run(actions, codes, trace[..n]);
      if trace[n].Open? {
        FreshIsUnknown(actions, trace, s);
      }
      hide Accounted, Valid, Run;
      StepKeepsWatch(actions, codes, s, trace[n]);
    }
  }

  lemma StepKeepsWatch(actions: seq<Action>, codes: Codes, s: State, e: Event)
    requires Inv(actions, s) && AllWatched(s) && NeverThrows(actions, codes)
    requires e.Open? ==> e.stream !in s.connections
    ensures AllWatched(Step(actions, codes, s, e))
  {
    match e
    case Open(stream, a, d, fails) => OpenEffect(actions, codes, s, stream, a, d, fails);
    case Close(stream) => CloseEffect(actions, s, stream);
  }

  /**
   * In all runs every registered stream has its close listener, if and only if the plain error does
   * not report the code for existing subscriptions or no channel rejects new streams.
   */
  lemma EveryConnectionIsWatchedExactly(actions: seq<Action>, codes: Codes)
    ensures (forall trace :: Valid(actions, trace) ==> AllWatched(Run(actions, codes, trace)))
       <==> NeverThrows(actions, codes)
  {
    if NeverThrows(actions, codes) {
      forall trace | Valid(actions, trace)
        ensures AllWatched(Run(actions, codes, trace))
      {
        EveryConnectionIsWatched(actions, codes, trace);
      }
    } else {
      var a: nat :| a < |actions| && actions[a] == Channel(RejectNew);
      SecondStreamUnwatched(actions, codes, a);
    }
  }

  /** With `RejectNew` and the intended plain code, the second stream of a device is never watched. */
  lemma SecondStreamUnwatched(actions: seq<Action>, codes: Codes, a: nat)
    requires a < |actions| && actions[a] == Channel(RejectNew) && codes.plainError == SUBSCRIPTIONS_EXISTS
    ensures var trace := [Open("1", a, "d", false), Open("2", a, "d", false)];
      Valid(actions, trace) && !AllWatched(Run(actions, codes, trace))
  {
    var (one, two) := (Open("1", a, "d", false), Open("2", a, "d", false));
    assert [one][..0] == [] && [one, two][..1] == [one];
    InitialInv(actions);
    OpenEffect(actions, codes, Initial(actions), "1", a, "d", false);
    var s := Run(actions, codes, [one]);
    assert Run(actions, codes, []) == Initial(actions);
    assert s == Step(actions, codes, Initial(actions), one);
    RunInvariant(actions, codes, [one]);
    hide OpenStream, Inv;
    OpenEffect(actions, codes, s, "2", a, "d", false);
    assert Run(actions, codes, [one, two]) == OpenStream(actions, codes, s, "2", a, "d", false);
  }

  /** A watched stream that asked for the channel is a subscriber or was told to end. */
  lemma UnservedStreamsAreEnded(actions: seq<Action>, codes: Codes, trace: seq<Event>, stream: string)
    requires Valid(actions, trace) && stream in Run(actions, codes, trace).listeners
    requires var r := Run(actions, codes, trace).listeners[stream]; UsesChannel(actions, r.action, r.device)
    ensures var s := Run(actions, codes, trace);
      var r := s.listeners[stream];
      stream in Subscribers(s, r.action, r.device) || stream in s.ended
  {
    RunInvariant(actions, codes, trace);
    assert Served(actions, Run(actions, codes, trace), stream);
  }

  // --- One more event, seen from one list ---

  predicate OpensAt(e: Event, a: nat, d: string) {
    e.Open? && e.action == a && e.device == d
  }

  /** How the last event of a run changed the list of one device. */
  lemma LastEvent(actions: seq<Action>, codes: Codes, trace: seq<Event>, a: nat, d: string)
    requires trace != [] && Valid(actions, trace) && UsesChannel(actions, a, d)
    ensures Valid(actions, trace[..|trace| - 1])
    ensures var (e, before) := (trace[|trace| - 1], Run(actions, codes, trace[..|trace| - 1]));
      var after := Run(actions, codes, trace);
      && (OpensAt(e, a, d) ==>
          SubsAt(after, a, d) == ListAfterOpen(actions[a].policy, codes, SubsAt(before, a, d), e.stream))
      && (e.Open? && !OpensAt(e, a, d) ==> SubsAt(after, a, d) == SubsAt(before, a, d))
      && (e.Close? ==> Subscribers(after, a, d) == Without(Subscribers(before, a, d), e.stream))
  {
    var n := |trace| - 1;
    ValidPrefix(actions, trace, n);
    RunInvariant(actions, codes, trace[..n]);
    var s := Run(actions, codes, trace[..n]);
    match trace[n]
    case Open(stream, a', d', fails) =>
      FreshIsUnknown(actions, trace, s);
      OpenEffect(actions, codes, s, stream, a', d', fails);
    case Close(stream) =>
      CloseEffect(actions, s, stream);
  }

  lemma RunStartsEmpty(actions: seq<Action>, codes: Codes, a: nat, d: string)
    ensures SubsAt(Run(actions, codes, []), a, d) == []
  {
  }

  /** The stream of a final open event is in no earlier event. */
  lemma LastOpenIsFresh(actions: seq<Action>, codes: Codes, trace: seq<Event>)
    requires trace != [] && Valid(actions, trace) && trace[|trace| - 1].Open?
    ensures !ClosedIn(trace, trace[|trace| - 1].stream)
    ensures forall i :: 0 <= i < |trace| - 1 ==> !Opens(trace[i], trace[|trace| - 1].stream)
  {
    ValidPrefix(actions, trace, |trace| - 1);
    RunInvariant(actions, codes, trace[..|trace| - 1]);
    FreshIsUnknown(actions, trace, Run(actions, codes, trace[..|trace| - 1]));
  }

  // --- Several connections allowed ---

  /** The streams opened for a device in the first `n` events and not closed in the whole run, in order. */
  function StillOpen(trace: seq<Event>, n: nat, a: nat, d: string): seq<string>
    requires n <= |trace|
  {
    if n == 0 then []
    else
      StillOpen(trace, n - 1, a, d)
      + if OpensAt(trace[n - 1], a, d) && !ClosedIn(trace, trace[n - 1].stream) then [trace[n - 1].stream] else []
  }

  lemma {:induction false} WithoutAppend(ids: seq<string>, last: seq<string>, stream: string)
    ensures Without(ids + last, stream) == Without(ids, stream) + Without(last, stream)
  {
    if ids == [] {
      assert ids + last == last;
    } else {
      WithoutAppend(ids[1..], last, stream);
      assert (ids + last)[1..] == ids[1..] + last;
      hide Without;
      var head := if ids[0] == stream then [] else [ids[0]];
      assert head + (Without(ids[1..], stream) + Without(last, stream))
          == head + Without(ids[1..], stream) + Without(last, stream);
    }
  }

  lemma ClosedExtended(trace: seq<Event>, e: Event, stream: string)
    ensures ClosedIn(trace + [e], stream) <==> ClosedIn(trace, stream) || e == Close(stream)
  {
  }

  /** One more close event takes its stream out of the list, and another event leaves it. */
  lemma {:induction false} StillOpenExtended(trace: seq<Event>, e: Event, n: nat, a: nat, d: string)
    requires n <= |trace|
    ensures StillOpen(trace + [e], n, a, d)
         == if e.Close? then Without(StillOpen(trace, n, a, d), e.stream) else StillOpen(trace, n, a, d)
  {
    hide ClosedIn;
    if n > 0 {
      StillOpenExtended(trace, e, n - 1, a, d);
      var o := trace[n - 1];
      assert (trace + [e])[n - 1] == o;
      if o.Open? {
        ClosedExtended(trace, e, o.stream);
      }
      if e.Close? {
        var last := if OpensAt(o, a, d) && !ClosedIn(trace, o.stream) then [o.stream] else [];
        WithoutAppend(StillOpen(trace, n - 1, a, d), last, e.stream);
      }
    }
  }

  /** With several connections allowed, the subscribers are exactly the open streams, in opening order. */
  lemma {:induction false} AllOpenStreamsSubscribed(actions: seq<Action>, codes: Codes, trace: seq<Event>, a: nat,
                                                    d: string)
    requires Valid(actions, trace) && a < |actions| && actions[a] == Channel(AllowMultiple) && d != ""
    ensures Subscribers(Run(actions, codes, trace), a, d) == StillOpen(trace, |trace|, a, d)
    decreases |trace|
  {
    hide Run, Valid;
    if trace == [] {
      RunStartsEmpty(actions, codes, a, d);
    } else {
      var n := |trace| - 1;
      var before, e := trace[..n], trace[n];
      assert trace == before + [e];
      LastEvent(actions, codes, trace, a, d);
      AllOpenStreamsSubscribed(actions, codes, before, a, d);
      StillOpenExtended(before, e, n, a, d);
      if OpensAt(e, a, d) {
        LastOpenIsFresh(actions, codes, trace);
      }
    }
  }

  lemma SingleSubscriber(stream: string)
    ensures StreamIds([Subscription(stream, stream)]) == [stream]
    ensures forall list: seq<Subscription> :: StreamIds(list) == [] <==> list == []
  {
  }

  /** The connections that publishing to a device writes to, in order. */
  function Sinks(list: seq<Subscription>): seq<string> {
    seq(|list|, i requires 0 <= i < |list| => list[i].sink)
  }

  /**
   * With several connections allowed, publishing to a device writes exactly once to each of its
   * open streams, in opening order.
   */
  lemma PublishReachesEachOpenStreamOnce(actions: seq<Action>, codes: Codes, trace: seq<Event>, a: nat, d: string)
    requires Valid(actions, trace) && a < |actions| && actions[a] == Channel(AllowMultiple) && d != ""
    ensures var writes := Sinks(SubsAt(Run(actions, codes, trace), a, d));
      && writes == StillOpen(trace, |trace|, a, d)
      && forall i, j :: 0 <= i < j < |writes| ==> writes[i] != writes[j]
  {
    AllOpenStreamsSubscribed(actions, codes, trace, a, d);
    RunInvariant(actions, codes, trace);
    ConnectedLists(actions, Run(actions, codes, trace), a, d);
  }

  // --- The previous connection closed ---

  /** The stream most recently opened for a device, with nothing before the first one. */
  function LastOpened(trace: seq<Event>, a: nat, d: string): seq<string> {
    if trace == [] then []
    else if OpensAt(trace[|trace| - 1], a, d) then [trace[|trace| - 1].stream]
    else LastOpened(trace[..|trace| - 1], a, d)
  }

  lemma {:induction false} LastOpenedIsOpened(trace: seq<Event>, a: nat, d: string)
    requires LastOpened(trace, a, d) != []
    ensures |LastOpened(trace, a, d)| == 1 && OpenedIn(trace, LastOpened(trace, a, d)[0])
  {
    var n := |trace| - 1;
    if OpensAt(trace[n], a, d) {
      assert Opens(trace[n], trace[n].stream);
    } else {
      LastOpenedIsOpened(trace[..n], a, d);
      var i :| 0 <= i < n && Opens(trace[..n][i], LastOpened(trace, a, d)[0]);
      assert Opens(trace[i], LastOpened(trace, a, d)[0]);
    }
  }

  /**
   * With the previous connection closed and the intended error code, the subscriber is exactly the
   * most recently opened stream, as long as that has not closed. A late close of a superseded
   * stream therefore changes nothing.
   */
  lemma {:induction false} NewestStreamSubscribed(actions: seq<Action>, codes: Codes, trace: seq<Event>, a: nat,
                                                  d: string)
    requires Valid(actions, trace) && a < |actions| && actions[a] == Channel(ClosePrevious) && d != ""
    requires codes.badRequest == SUBSCRIPTIONS_EXISTS
    ensures Subscribers(Run(actions, codes, trace), a, d) == OpenNewest(trace, a, d)
    decreases |trace|
  {
    hide Run, Valid;
    if trace == [] {
      RunStartsEmpty(actions, codes, a, d);
    } else {
      var n := |trace| - 1;
      var before, e := trace[..n], trace[n];
      assert trace == before + [e];
      LastEvent(actions, codes, trace, a, d);
      NewestStreamSubscribed(actions, codes, before, a, d);
      if LastOpened(before, a, d) != [] {
        LastOpenedIsOpened(before, a, d);
      }
      if OpensAt(e, a, d) {
        LastOpenIsFresh(actions, codes, trace);
        SingleSubscriber(e.stream);
      }
    }
  }

  // --- New connections rejected ---

  /** With new connections rejected, only its own close event ends a subscription. */
  lemma SubscriberKeepsItsPlace(actions: seq<Action>, codes: Codes, trace: seq<Event>, a: nat, d: string,
                                stream: string)
    requires trace != [] && Valid(actions, trace) && a < |actions| && actions[a] == Channel(RejectNew) && d != ""
    requires Subscribers(Run(actions, codes, trace[..|trace| - 1]), a, d) == [stream]
    requires trace[|trace| - 1] != Close(stream)
    ensures Subscribers(Run(actions, codes, trace), a, d) == [stream]
  {
    LastEvent(actions, codes, trace, a, d);
  }

  /** A stream opened while its device had no subscriber, and not closed since. */
  ghost predicate TookFreePlace(actions: seq<Action>, codes: Codes, trace: seq<Event>, a: nat, d: string,
                                stream: string) {
    && !ClosedIn(trace, stream)
    && exists i :: && 0 <= i < |trace| && OpensAt(trace[i], a, d) && trace[i].stream == stream
                   && Subscribers(Run(actions, codes, trace[..i]), a, d) == []
  }

  /** New connections are rejected, by the policy or because the wrong code is thrown for the others. */
  predicate KeepsFirst(policy: Policy, codes: Codes) {
    policy.RejectNew? || (policy.ClosePrevious? && codes.badRequest != SUBSCRIPTIONS_EXISTS)
  }

  /** Where new connections are rejected, the subscriber is exactly the stream that found the place free. */
  lemma {:induction false} FirstStreamSubscribed(actions: seq<Action>, codes: Codes, trace: seq<Event>, a: nat,
                                                 d: string,
                                                 stream: string)
    requires Valid(actions, trace) && UsesChannel(actions, a, d) && KeepsFirst(actions[a].policy, codes)
    ensures Subscribers(Run(actions, codes, trace), a, d) == [stream]
       <==> TookFreePlace(actions, codes, trace, a, d, stream)
    decreases |trace|
  {
    hide Run, Valid;
    if trace == [] {
      RunStartsEmpty(actions, codes, a, d);
    } else {
      var n := |trace| - 1;
      var before, e := trace[..n], trace[n];
      assert trace == before + [e];
      LastEvent(actions, codes, trace, a, d);
      FirstStreamSubscribed(actions, codes, before, a, d, stream);
      TookFreePlaceStep(actions, codes, trace, a, d, stream);
      AtMostOneSubscriber(actions, codes, before, a, d);
      if OpensAt(e, a, d) {
        LastOpenIsFresh(actions, codes, trace);
        SingleSubscriber(e.stream);
      }
    }
  }

  lemma AtMostOneSubscriber(actions: seq<Action>, codes: Codes, trace: seq<Event>, a: nat, d: string)
    requires Valid(actions, trace) && Exclusive(actions, a)
    ensures |Subscribers(Run(actions, codes, trace), a, d)| <= 1
  {
    RunInvariant(actions, codes, trace);
    ConnectedLists(actions, Run(actions, codes, trace), a, d);
  }

  /** A free place was taken before the last event and not left in it, or is taken by it. */
  lemma TookFreePlaceStep(actions: seq<Action>, codes: Codes, trace: seq<Event>, a: nat, d: string, stream: string)
    requires trace != []
    ensures var (before, e) := (trace[..|trace| - 1], trace[|trace| - 1]);
      TookFreePlace(actions, codes, trace, a, d, stream) <==>
        || (TookFreePlace(actions, codes, before, a, d, stream) && e != Close(stream))
        || (OpensAt(e, a, d) && e.stream == stream && !ClosedIn(trace, stream)
            && Subscribers(Run(actions, codes, before), a, d) == [])
  {
    hide Run, Subscribers;
    var n := |trace| - 1;
    var before, e := trace[..n], trace[n];
    assert trace == before + [e];
    assert ClosedIn(trace, stream) <==> ClosedIn(before, stream) || e == Close(stream);
    forall i | 0 <= i < n
      ensures trace[..i] == before[..i] && trace[i] == before[i]
    {
    }
    if TookFreePlace(actions, codes, before, a, d, stream) && e != Close(stream) {
      var i :| && 0 <= i < n && OpensAt(before[i], a, d) && before[i].stream == stream
               && Subscribers(Run(actions, codes, before[..i]), a, d) == [];
      assert OpensAt(trace[i], a, d) && Subscribers(Run(actions, codes, trace[..i]), a, d) == [];
    }
    if TookFreePlace(actions, codes, trace, a, d, stream) {
      var i :| && 0 <= i < |trace| && OpensAt(trace[i], a, d) && trace[i].stream == stream
               && Subscribers(Run(actions, codes, trace[..i]), a, d) == [];
      if i < n {
        assert OpensAt(before[i], a, d) && Subscribers(Run(actions, codes, before[..i]), a, d) == [];
      }
    }
  }

  // --- Which code closing the previous connection needs ---

  /** The newest stream of the device as long as it is open. */
  function OpenNewest(trace: seq<Event>, a: nat, d: string): seq<string> {
    var last := LastOpened(trace, a, d);
    if last != [] && !ClosedIn(trace, last[0]) then last else []
  }

  /**
   * Closing the previous connection works exactly when the error thrown for an existing
   * subscription carries the code that the stream handler looks for. With any other code the
   * second stream of a device stays without a subscription.
   */
  lemma NewestStreamSubscribedExactly(actions: seq<Action>, codes: Codes, a: nat, d: string)
    requires UsesChannel(actions, a, d) && actions[a].policy.ClosePrevious?
    ensures (forall trace :: Valid(actions, trace) ==>
               Subscribers(Run(actions, codes, trace), a, d) == OpenNewest(trace, a, d))
       <==> codes.badRequest == SUBSCRIPTIONS_EXISTS
  {
    if codes.badRequest == SUBSCRIPTIONS_EXISTS {
      forall trace | Valid(actions, trace)
        ensures Subscribers(Run(actions, codes, trace), a, d) == OpenNewest(trace, a, d)
      {
        NewestStreamSubscribed(actions, codes, trace, a, d);
      }
    } else {
      var one, two := Open("1", a, d, false), Open("2", a, d, false);
      SecondStreamTurnedAway(actions, codes, a, d, one, two);
      assert LastOpened([one, two], a, d) == ["2"];
      assert OpenNewest([one, two], a, d) == ["2"];
    }
  }

  lemma SecondStreamTurnedAway(actions: seq<Action>, codes: Codes, a: nat, d: string, one: Event, two: Event)
    requires UsesChannel(actions, a, d) && KeepsFirst(actions[a].policy, codes)
    requires OpensAt(one, a, d) && OpensAt(two, a, d) && one.stream != two.stream
    ensures Valid(actions, [one, two])
    ensures Subscribers(Run(actions, codes, [one, two]), a, d) == [one.stream]
  {
    var trace := [one, two];
    assert trace[..0] == [];
    RunStartsEmpty(actions, codes, a, d);
    assert TookFreePlace(actions, codes, trace, a, d, one.stream);
    FirstStreamSubscribed(actions, codes, trace, a, d, one.stream);
  }
}
