/** What every run of the stream protocol keeps, and what it amounts to under each policy. */
module StreamTheorems {
  import opened StreamProtocol

  /** The subscriptions of a device with an action. */
  function SubsAt(s: State, action: nat, device: string): seq<Subscription> {
    if action < |s.subs| then DeviceList(s.subs[action], device) else []
  }

  function Subscribers(s: State, action: nat, device: string): seq<string> {
    StreamIds(SubsAt(s, action, device))
  }

  // --- One step, in terms of the lists ---

  /** What opening a stream makes of the device's list. */
  function ListAfterOpen(policy: Policy, codes: Codes, list: seq<Subscription>, stream: string): seq<Subscription> {
    var sub := Subscription(stream, stream);
    match policy
    case AllowMultiple => list + [sub]
    case RejectNew => if list == [] then [sub] else list
    case ClosePrevious => if list == [] || codes.badRequest == SUBSCRIPTIONS_EXISTS then [sub] else list
  }

  /** The one way in which opening a stream throws, leaving it without a close listener. */
  predicate OpenThrows(policy: Policy, codes: Codes, list: seq<Subscription>) {
    policy.RejectNew? && list != [] && codes.plainError == SUBSCRIPTIONS_EXISTS
  }

  /** Every subscription of the device is of a connected stream, and of a different one. */
  ghost predicate Connected(s: State, action: nat, device: string) {
    var list := SubsAt(s, action, device);
    Distinct(list) && forall i :: 0 <= i < |list| ==> list[i].streamId in s.connections
  }

  function FirstIds(list: seq<Subscription>, k: nat): set<string>
    requires k <= |list|
  {
    if k == 0 then {} else FirstIds(list, k - 1) + {list[k - 1].streamId}
  }

  /** Ending the existing streams of a device, first to last, frees its list and touches no other. */
  lemma {:induction false} EndExistingEffect(s: State, action: nat, device: string, k: nat)
    requires action < |s.subs| && Connected(s, action, device) && k <= |SubsAt(s, action, device)|
    ensures var list := SubsAt(s, action, device);
      var freed := EndExisting(s, action, device, StreamIds(list)[..k]);
      && SubsAt(freed, action, device) == list[k..]
      && (forall a: nat, d :: a != action || d != device ==> SubsAt(freed, a, d) == SubsAt(s, a, d))
      && freed.ended == s.ended + FirstIds(list, k)
  {
    var list := SubsAt(s, action, device);
    var ids := StreamIds(list);
    if k > 0 {
      EndExistingEffect(s, action, device, k - 1);
      assert ids[..k][..k - 1] == ids[..k - 1] && ids[..k][k - 1] == list[k - 1].streamId;
    }
  }

  // --- The invariant ---

  /** Each subscription writes to its own stream, which is registered under this device and action. */
  ghost predicate Own(actions: seq<Action>, s: State, action: nat, device: string) {
    forall i :: 0 <= i < |SubsAt(s, action, device)| ==>
      var sub := SubsAt(s, action, device)[i];
      && sub.sink == sub.streamId
      && sub.streamId in s.listeners && s.listeners[sub.streamId] == Registration(action, device)
      && UsesChannel(actions, action, device)
  }

  ghost predicate Distinct(list: seq<Subscription>) {
    forall i, j :: 0 <= i < j < |list| ==> list[i].streamId != list[j].streamId
  }

  predicate Exclusive(actions: seq<Action>, action: nat) {
    action < |actions| && actions[action].Channel? && !actions[action].policy.AllowMultiple?
  }

  ghost predicate ListOk(actions: seq<Action>, s: State, action: nat, device: string) {
    && Own(actions, s, action, device)
    && Distinct(SubsAt(s, action, device))
    && (Exclusive(actions, action) ==> |SubsAt(s, action, device)| <= 1)
  }

  /** A stream that asked for the channel is subscribed, or the service has told it to end. */
  ghost predicate Served(actions: seq<Action>, s: State, stream: string) {
    stream in s.listeners ==>
      var r := s.listeners[stream];
      UsesChannel(actions, r.action, r.device) ==>
        stream in Subscribers(s, r.action, r.device) || stream in s.ended
  }

  ghost predicate Inv(actions: seq<Action>, s: State) {
    && |s.subs| == |actions|
    && s.listeners.Keys <= s.connections
    && (forall a: nat, d :: ListOk(actions, s, a, d))
    && (forall stream :: Served(actions, s, stream))
  }

  /** Subscribing a stream, when every existing subscription of the device is connected. */
  lemma JoinEffect(actions: seq<Action>, codes: Codes, s: State, stream: string, action: nat, device: string)
    requires |s.subs| == |actions| && UsesChannel(actions, action, device)
    requires Connected(s, action, device)
    ensures var (joined, threw) := JoinChannel(actions, codes, s, stream, action, device);
      var (list, policy) := (SubsAt(s, action, device), actions[action].policy);
      && SubsAt(joined, action, device) == ListAfterOpen(policy, codes, list, stream)
      && (forall a: nat, d :: a != action || d != device ==> SubsAt(joined, a, d) == SubsAt(s, a, d))
      && joined.connections == s.connections && joined.listeners == s.listeners && |joined.subs| == |s.subs|
      && threw == OpenThrows(policy, codes, list)
      && joined.ended == s.ended + EndedByOpen(policy, codes, list, stream)
  {
    var list, policy := SubsAt(s, action, device), actions[action].policy;
    var sub := Subscription(stream, stream);
    match Subscribe(policy, codes, s.subs[action], device, sub)
    case Subscribed(subs) =>
    case Thrown(code, existing) =>
      if code == SUBSCRIPTIONS_EXISTS {
        if policy.ClosePrevious? {
          assert existing[..|list|] == existing;
          EndExistingEffect(s, action, device, |list|);
          var freed := EndExisting(s, action, device, existing);
          assert SubsAt(freed, action, device) == [];
        }
      }
  }

  /** The streams told to end when a stream is opened: the superseded ones, or the new one itself. */
  function EndedByOpen(policy: Policy, codes: Codes, list: seq<Subscription>, stream: string): set<string> {
    if policy.AllowMultiple? || list == [] then {}
    else if policy.ClosePrevious? && codes.badRequest == SUBSCRIPTIONS_EXISTS then
      FirstIds(list, |list|)
    else if OpenThrows(policy, codes, list) then {}
    else {stream}
  }

  lemma ConnectedLists(actions: seq<Action>, s: State, action: nat, device: string)
    requires Inv(actions, s)
    ensures ListOk(actions, s, action, device)
    ensures forall i :: 0 <= i < |SubsAt(s, action, device)| ==> SubsAt(s, action, device)[i].streamId in s.connections
  {
    assert ListOk(actions, s, action, device);
  }

  /** Opening a fresh stream changes the list of its own device only. */
  lemma OpenEffect(actions: seq<Action>, codes: Codes, s: State, stream: string, action: nat, device: string,
                   fails: bool)
    requires Inv(actions, s) && stream !in s.connections
    ensures var s' := OpenStream(actions, codes, s, stream, action, device, fails);
      && s'.connections == s.connections + {stream}
      && (forall a: nat, d :: a != action || d != device ==> SubsAt(s', a, d) == SubsAt(s, a, d))
    ensures var s' := OpenStream(actions, codes, s, stream, action, device, fails);
      UsesChannel(actions, action, device) ==>
        var (list, policy) := (SubsAt(s, action, device), actions[action].policy);
        && SubsAt(s', action, device) == ListAfterOpen(policy, codes, list, stream)
        && s'.listeners == (if OpenThrows(policy, codes, list) then s.listeners
                            else s.listeners[stream := Registration(action, device)])
        && s'.ended == s.ended + EndedByOpen(policy, codes, list, stream)
                       + (if fails && !OpenThrows(policy, codes, list) then {stream} else {})
    ensures var s' := OpenStream(actions, codes, s, stream, action, device, fails);
      !UsesChannel(actions, action, device) ==>
        && s'.subs == s.subs && s'.ended == s.ended + (if fails then {stream} else {})
        && s'.listeners == s.listeners[stream := Registration(action, device)]
  {
    var connected := s.(connections := s.connections + {stream});
    ConnectedLists(actions, s, action, device);
    if UsesChannel(actions, action, device) {
      assert forall a: nat, d :: SubsAt(connected, a, d) == SubsAt(s, a, d);
      JoinEffect(actions, codes, connected, stream, action, device);
    }
  }

  lemma OpenKeepsInv(actions: seq<Action>, codes: Codes, s: State, stream: string, action: nat, device: string,
                     fails: bool)
    requires Inv(actions, s) && stream !in s.connections
    ensures Inv(actions, OpenStream(actions, codes, s, stream, action, device, fails))
  {
    hide OpenStream, JoinChannel, ListOk, Served;
    OpenEffect(actions, codes, s, stream, action, device, fails);
    OpenKeepsLength(actions, codes, s, stream, action, device, fails);
    OpenKeepsLists(actions, codes, s, stream, action, device, fails);
    OpenKeepsServed(actions, codes, s, stream, action, device, fails);
  }

  lemma OpenKeepsLists(actions: seq<Action>, codes: Codes, s: State, stream: string, action: nat, device: string,
                       fails: bool)
    requires Inv(actions, s) && stream !in s.connections
    ensures forall a: nat, d :: ListOk(actions, OpenStream(actions, codes, s, stream, action, device, fails), a, d)
  {
    hide OpenStream, JoinChannel;
    var s' := OpenStream(actions, codes, s, stream, action, device, fails);
    OpenEffect(actions, codes, s, stream, action, device, fails);
    forall a: nat, d
      ensures ListOk(actions, s', a, d)
    {
      ConnectedLists(actions, s, a, d);
      if a == action && d == device && UsesChannel(actions, action, device) {
        assert SubsAt(s', a, d) == ListAfterOpen(actions[a].policy, codes, SubsAt(s, a, d), stream);
      } else {
        assert SubsAt(s', a, d) == SubsAt(s, a, d);
        OtherListOk(actions, s, s', a, d);
      }
    }
  }

  lemma OpenKeepsServed(actions: seq<Action>, codes: Codes, s: State, stream: string, action: nat, device: string,
                        fails: bool)
    requires Inv(actions, s) && stream !in s.connections
    ensures forall st :: Served(actions, OpenStream(actions, codes, s, stream, action, device, fails), st)
  {
    hide OpenStream, JoinChannel;
    var s' := OpenStream(actions, codes, s, stream, action, device, fails);
    OpenEffect(actions, codes, s, stream, action, device, fails);
    hide ListOk;
    forall st
      ensures Served(actions, s', st)
    {
      assert Served(actions, s, st);
      if && UsesChannel(actions, action, device) && st in s.listeners
         && s.listeners[st] == Registration(action, device) && st in Subscribers(s, action, device) {
        DisplacedIsEnded(actions[action].policy, codes, SubsAt(s, action, device), stream, st);
      }
      if st == stream && st in s'.listeners && UsesChannel(actions, action, device) {
        NewIsServed(actions[action].policy, codes, SubsAt(s, action, device), stream);
      }
    }
  }

  lemma OtherListOk(actions: seq<Action>, s: State, s': State, action: nat, device: string)
    requires ListOk(actions, s, action, device) && SubsAt(s', action, device) == SubsAt(s, action, device)
    requires forall st :: st in s.listeners && s.listeners[st] == Registration(action, device) ==>
               st in s'.listeners && s'.listeners[st] == s.listeners[st]
    ensures ListOk(actions, s', action, device)
  {
    forall i | 0 <= i < |SubsAt(s', action, device)|
      ensures var sub := SubsAt(s', action, device)[i];
        && sub.sink == sub.streamId
        && sub.streamId in s'.listeners && s'.listeners[sub.streamId] == Registration(action, device)
        && UsesChannel(actions, action, device)
    {
      assert SubsAt(s, action, device)[i].streamId in s.listeners;
    }
  }

  lemma OpenKeepsLength(actions: seq<Action>, codes: Codes, s: State, stream: string, action: nat, device: string,
                        fails: bool)
    requires |s.subs| == |actions|
    ensures |OpenStream(actions, codes, s, stream, action, device, fails).subs| == |actions|
  {
  }

  lemma StreamIdsHave(list: seq<Subscription>, i: nat)
    requires i < |list|
    ensures list[i].streamId in StreamIds(list)
  {
    assert StreamIds(list)[i] == list[i].streamId;
  }

  lemma {:induction false} FirstIdsHave(list: seq<Subscription>, k: nat, i: nat)
    requires i < k <= |list|
    ensures list[i].streamId in FirstIds(list, k)
  {
    if i < k - 1 {
      FirstIdsHave(list, k - 1, i);
    }
  }

  lemma DisplacedIsEnded(policy: Policy, codes: Codes, list: seq<Subscription>, stream: string, st: string)
    requires st in StreamIds(list)
    ensures st in StreamIds(ListAfterOpen(policy, codes, list, stream))
        || st in EndedByOpen(policy, codes, list, stream)
  {
    var i :| 0 <= i < |list| && StreamIds(list)[i] == st;
    var list' := ListAfterOpen(policy, codes, list, stream);
    if i < |list'| && list'[i] == list[i] {
      StreamIdsHave(list', i);
    }
    FirstIdsHave(list, |list|, i);
  }

  lemma NewIsServed(policy: Policy, codes: Codes, list: seq<Subscription>, stream: string)
    requires !OpenThrows(policy, codes, list)
    ensures stream in StreamIds(ListAfterOpen(policy, codes, list, stream))
        || stream in EndedByOpen(policy, codes, list, stream)
  {
    var list' := ListAfterOpen(policy, codes, list, stream);
    if |list'| > 0 {
      StreamIdsHave(list', |list'| - 1);
    }
  }

  // --- Closing ---

  lemma {:induction false} RemoveAbsent(list: seq<Subscription>, stream: string)
    requires stream !in StreamIds(list)
    ensures RemoveFirst(list, stream) == list
  {
    if list != [] {
      assert StreamIds(list)[0] == list[0].streamId;
      assert StreamIds(list[1..]) == StreamIds(list)[1..];
      RemoveAbsent(list[1..], stream);
    }
  }

  function Without(ids: seq<string>, stream: string): seq<string> {
    if ids == [] then []
    else (if ids[0] == stream then [] else [ids[0]]) + Without(ids[1..], stream)
  }

  lemma {:induction false} WithoutAbsent(ids: seq<string>, stream: string)
    requires stream !in ids
    ensures Without(ids, stream) == ids
  {
    if ids != [] {
      WithoutAbsent(ids[1..], stream);
    }
  }

  lemma {:induction false} WithoutKeepsOthers(ids: seq<string>, stream: string)
    ensures forall id :: id in Without(ids, stream) <==> id in ids && id != stream
  {
    if ids != [] {
      WithoutKeepsOthers(ids[1..], stream);
      assert forall id :: id in ids <==> id == ids[0] || id in ids[1..];
    }
  }

  /** In a list of different streams, removing the first occurrence removes the stream. */
  lemma RemoveFirstRemoves(list: seq<Subscription>, stream: string)
    requires Distinct(list)
    ensures var rest := RemoveFirst(list, stream);
      && StreamIds(rest) == Without(StreamIds(list), stream)
      && stream !in StreamIds(rest)
      && Distinct(rest) && |rest| <= |list|
      && (forall i :: 0 <= i < |rest| ==> rest[i] in list)
      && (forall i :: 0 <= i < |list| && list[i].streamId != stream ==> list[i].streamId in StreamIds(rest))
  {
    RemoveFirstIds(list, stream);
    RemoveFirstKeeps(list, stream);
    WithoutKeepsOthers(StreamIds(list), stream);
    hide RemoveFirst, Without;
    forall i | 0 <= i < |list| && list[i].streamId != stream
      ensures list[i].streamId in StreamIds(RemoveFirst(list, stream))
    {
      StreamIdsHave(list, i);
    }
  }

  lemma {:induction false} RemoveFirstIds(list: seq<Subscription>, stream: string)
    requires Distinct(list)
    ensures StreamIds(RemoveFirst(list, stream)) == Without(StreamIds(list), stream)
  {
    if list != [] {
      var tail := list[1..];
      assert StreamIds(list) == [list[0].streamId] + StreamIds(tail);
      if list[0].streamId == stream {
        forall i | 0 <= i < |tail|
          ensures tail[i].streamId != stream
        {
          assert list[i + 1] == tail[i];
        }
        WithoutAbsent(StreamIds(tail), stream);
      } else {
        RemoveFirstIds(tail, stream);
        IdsConsed(list[0], RemoveFirst(tail, stream));
      }
    }
  }

  lemma IdsConsed(first: Subscription, rest: seq<Subscription>)
    ensures StreamIds([first] + rest) == [first.streamId] + StreamIds(rest)
  {
  }

  /** Removing the first occurrence keeps the others different, and adds nothing. */
  lemma {:induction false} RemoveFirstKeeps(list: seq<Subscription>, stream: string)
    requires Distinct(list)
    ensures var rest := RemoveFirst(list, stream);
      Distinct(rest) && |rest| <= |list| && forall i :: 0 <= i < |rest| ==> rest[i] in list
  {
    if list != [] && list[0].streamId != stream {
      var rest := RemoveFirst(list[1..], stream);
      RemoveFirstKeeps(list[1..], stream);
      forall i | 0 <= i < |rest|
        ensures rest[i] in list && rest[i].streamId != list[0].streamId
      {
        var j :| 0 <= j < |list[1..]| && list[1..][j] == rest[i];
        assert list[j + 1] == rest[i];
      }
    }
  }

  /** Closing a stream removes it from its own device's list and touches no other. */
  lemma CloseEffect(actions: seq<Action>, s: State, stream: string)
    requires Inv(actions, s)
    ensures var s' := CloseStream(actions, s, stream);
      && s'.ended == s.ended
      && (forall a: nat, d :: Subscribers(s', a, d) == Without(Subscribers(s, a, d), stream))
      && s'.listeners == s.listeners - {stream}
      && s'.connections == (if stream in s.listeners then s.connections - {stream} else s.connections)
  {
    var s' := CloseStream(actions, s, stream);
    forall a: nat, d
      ensures Subscribers(s', a, d) == Without(Subscribers(s, a, d), stream)
    {
      CloseAt(actions, s, stream, a, d);
    }
  }

  /** The effect on one list: what is left are subscriptions of other streams. */
  lemma CloseAt(actions: seq<Action>, s: State, stream: string, action: nat, device: string)
    requires Inv(actions, s)
    ensures var (before, after) := (SubsAt(s, action, device), SubsAt(CloseStream(actions, s, stream), action, device));
      && StreamIds(after) == Without(StreamIds(before), stream)
      && stream !in StreamIds(after)
      && Distinct(after) && |after| <= |before|
      && (forall i :: 0 <= i < |after| ==> after[i] in before)
      && (forall i :: 0 <= i < |before| && before[i].streamId != stream ==> before[i].streamId in StreamIds(after))
  {
    ConnectedLists(actions, s, action, device);
    var before, after := SubsAt(s, action, device), SubsAt(CloseStream(actions, s, stream), action, device);
    RemoveFirstRemoves(before, stream);
    if stream in StreamIds(before) {
      var i :| 0 <= i < |before| && StreamIds(before)[i] == stream;
      assert before[i].streamId == stream;
      assert s.listeners[stream] == Registration(action, device);
    } else {
      RemoveAbsent(before, stream);
    }
    assert after == RemoveFirst(before, stream);
  }

  lemma CloseKeepsInv(actions: seq<Action>, s: State, stream: string)
    requires Inv(actions, s)
    ensures Inv(actions, CloseStream(actions, s, stream))
  {
    var s' := CloseStream(actions, s, stream);
    CloseEffect(actions, s, stream);
    hide CloseStream, RemoveFirst;
    forall a: nat, d
      ensures ListOk(actions, s', a, d)
    {
      ConnectedLists(actions, s, a, d);
      CloseAt(actions, s, stream, a, d);
      forall i | 0 <= i < |SubsAt(s', a, d)|
        ensures var sub := SubsAt(s', a, d)[i];
          && sub.sink == sub.streamId
          && sub.streamId in s'.listeners && s'.listeners[sub.streamId] == Registration(a, d)
          && UsesChannel(actions, a, d)
      {
        var j :| 0 <= j < |SubsAt(s, a, d)| && SubsAt(s, a, d)[j] == SubsAt(s', a, d)[i];
        StreamIdsHave(SubsAt(s', a, d), i);
      }
    }
    forall st
      ensures Served(actions, s', st)
    {
      assert Served(actions, s, st);
      if st in s'.listeners {
        var r := s.listeners[st];
        CloseAt(actions, s, stream, r.action, r.device);
        if st in Subscribers(s, r.action, r.device) {
          var i :| 0 <= i < |SubsAt(s, r.action, r.device)| && Subscribers(s, r.action, r.device)[i] == st;
          assert SubsAt(s, r.action, r.device)[i].streamId == st;
        }
      }
    }
  }

  // --- Every run ---

  lemma ValidPrefix(actions: seq<Action>, trace: seq<Event>, n: nat)
    requires Valid(actions, trace) && n <= |trace|
    ensures Valid(actions, trace[..n])
  {
    forall j | 0 <= j < n && trace[j].Close?
      ensures exists i :: 0 <= i < j && Opens(trace[..n][i], trace[j].stream)
    {
      var i :| 0 <= i < j && Opens(trace[i], trace[j].stream);
      assert Opens(trace[..n][i], trace[j].stream);
    }
  }

  /** A registered stream was opened, and one with a listener has not closed. */
  ghost predicate Accounted(trace: seq<Event>, s: State) {
    && (forall st :: st in s.connections ==> OpenedIn(trace, st))
    && (forall st :: st in s.listeners ==> !ClosedIn(trace, st))
  }

  lemma {:induction false} RunInvariant(actions: seq<Action>, codes: Codes, trace: seq<Event>)
    requires Valid(actions, trace)
    ensures Inv(actions, Run(actions, codes, trace)) && Accounted(trace, Run(actions, codes, trace))
    decreases |trace|
  {
    if trace == [] {
      InitialInv(actions);
    } else {
      var n := |trace| - 1;
      var before, e := trace[..n], trace[n];
      ValidPrefix(actions, trace, n);
      RunInvariant(actions, codes, before);
      hide Inv, Step;
      var s := Run(actions, codes, before);
      if e.Open? {
        FreshIsUnknown(actions, trace, s);
      }
      StepKeepsInv(actions, codes, s, e);
      AccountedStep(actions, codes, trace, s);
    }
  }

  lemma InitialInv(actions: seq<Action>)
    ensures Inv(actions, Initial(actions))
  {
    assert forall a: nat, d :: SubsAt(Initial(actions), a, d) == [];
  }

  lemma StepKeepsInv(actions: seq<Action>, codes: Codes, s: State, e: Event)
    requires Inv(actions, s) && (e.Open? ==> e.stream !in s.connections)
    ensures Inv(actions, Step(actions, codes, s, e))
  {
    hide Inv;
    match e
    case Open(stream, action, device, fails) => OpenKeepsInv(actions, codes, s, stream, action, device, fails);
    case Close(stream) => CloseKeepsInv(actions, s, stream);
  }

  /** A stream about to open is not registered and has no close event before it. */
  lemma FreshIsUnknown(actions: seq<Action>, trace: seq<Event>, s: State)
    requires trace != [] && trace[|trace| - 1].Open? && Valid(actions, trace)
    requires Accounted(trace[..|trace| - 1], s)
    ensures trace[|trace| - 1].stream !in s.connections
    ensures !ClosedIn(trace, trace[|trace| - 1].stream)
  {
  }

  lemma AccountedStep(actions: seq<Action>, codes: Codes, trace: seq<Event>, s: State)
    requires trace != [] && Valid(actions, trace) && Inv(actions, s)
    requires Accounted(trace[..|trace| - 1], s)
    ensures Accounted(trace, Step(actions, codes, s, trace[|trace| - 1]))
  {
    var n := |trace| - 1;
    var before, e := trace[..n], trace[n];
    var s' := Step(actions, codes, s, e);
    assert trace == before + [e];
    match e {
      case Open(stream, action, device, fails) =>
        FreshIsUnknown(actions, trace, s);
        OpenEffect(actions, codes, s, stream, action, device, fails);
        assert Opens(trace[n], stream);
      case Close(stream) =>
        CloseEffect(actions, s, stream);
    }
    hide Step;
    forall st | st in s'.connections
      ensures OpenedIn(trace, st)
    {
      if OpenedIn(before, st) {
        var i :| 0 <= i < n && Opens(before[i], st);
        assert Opens(trace[i], st);
      }
    }
    forall st | st in s'.listeners
      ensures !ClosedIn(trace, st)
    {
      if st in s.listeners {
        assert !ClosedIn(before, st);
      }
    }
  }
}
