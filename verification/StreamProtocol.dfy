/**
 * The protocol between stream connections and device subscriptions, as a transition system over
 * any number of streams, devices and actions.
 */
module StreamProtocol {

  datatype Policy = AllowMultiple | RejectNew | ClosePrevious

  /** An action either offers a subscription channel, under a fixed policy, or does not. */
  datatype Action = Channel(policy: Policy) | NoChannel

  /** A subscription of a stream; its handler writes to the connection named by `sink`. */
  datatype Subscription = Subscription(streamId: string, sink: string)

  /** The subscriptions of one action: for each device, in subscription order. */
  type Subscriptions = map<string, seq<Subscription>>

  const SUBSCRIPTIONS_EXISTS := 9000

  /** The codes reported by the two errors that subscribing can throw. */
  datatype Codes = Codes(badRequest: int, plainError: int)

  datatype SubscribeResult =
    | Subscribed(subscriptions: Subscriptions)
    | Thrown(code: int, existing: seq<string>)

  function DeviceList(subs: Subscriptions, device: string): seq<Subscription> {
    if device in subs then subs[device] else []
  }

  function StreamIds(list: seq<Subscription>): seq<string> {
    seq(|list|, i requires 0 <= i < |list| => list[i].streamId)
  }

  function Subscribe(policy: Policy, codes: Codes, subs: Subscriptions, device: string,
                     sub: Subscription): SubscribeResult {
    var list := DeviceList(subs, device);
    if policy.RejectNew? && list != [] then Thrown(codes.plainError, [])
    else if policy.ClosePrevious? && list != [] then Thrown(codes.badRequest, StreamIds(list))
    else Subscribed(subs[device := list + [sub]])
  }

  /** The list without its first subscription of `streamId`. */
  function RemoveFirst(list: seq<Subscription>, streamId: string): seq<Subscription> {
    if list == [] then []
    else if list[0].streamId == streamId then list[1..]
    else [list[0]] + RemoveFirst(list[1..], streamId)
  }

  function Unsubscribe(subs: Subscriptions, device: string, streamId: string): Subscriptions {
    if device in subs then subs[device := RemoveFirst(subs[device], streamId)] else subs
  }

  // --- The service ---

  /** What the close listener of a stream knows. */
  datatype Registration = Registration(action: nat, device: string)

  /**
   * `connections` are the registered streams, `listeners` those whose close listener is attached,
   * `ended` those the service has told to end, `subs` the subscriptions of each action.
   */
  datatype State = State(
    connections: set<string>,
    listeners: map<string, Registration>,
    ended: set<string>,
    subs: seq<Subscriptions>)

  datatype Event =
    | Open(stream: string, action: nat, device: string, openedFails: bool)
    | Close(stream: string)

  function Initial(actions: seq<Action>): State {
    State({}, map[], {}, seq(|actions|, _ => map[]))
  }

  /** A stream of this action and device takes part in the channel. */
  predicate UsesChannel(actions: seq<Action>, action: nat, device: string) {
    action < |actions| && actions[action].Channel? && device != ""
  }

  /** Ending the existing connections, one by one, and dropping their subscriptions. */
  function EndExisting(s: State, action: nat, device: string, existing: seq<string>): (freed: State)
    requires action < |s.subs|
    ensures |freed.subs| == |s.subs| && freed.connections == s.connections && freed.listeners == s.listeners
  {
    if existing == [] then s
    else
      var before := EndExisting(s, action, device, existing[..|existing| - 1]);
      var id := existing[|existing| - 1];
      if id in before.connections then
        before.(subs := before.subs[action := Unsubscribe(before.subs[action], device, id)],
                ended := before.ended + {id})
      else before
  }

  /**
   * The subscription part of opening a stream. The flag tells whether it threw: then the listeners
   * are never attached.
   */
  function JoinChannel(actions: seq<Action>, codes: Codes, s: State, stream: string, action: nat,
                       device: string): (State, bool)
    requires |s.subs| == |actions| && UsesChannel(actions, action, device)
  {
    var sub := Subscription(stream, stream);
    match Subscribe(actions[action].policy, codes, s.subs[action], device, sub)
    case Subscribed(subs) => (s.(subs := s.subs[action := subs]), false)
    case Thrown(code, existing) =>
      if code == SUBSCRIPTIONS_EXISTS then
        var freed := EndExisting(s, action, device, existing);
        match Subscribe(actions[action].policy, codes, freed.subs[action], device, sub)
        case Subscribed(subs) => (freed.(subs := freed.subs[action := subs]), false)
        case Thrown(_, _) => (freed, true)
      else (s.(ended := s.ended + {stream}), false)
  }

  function OpenStream(actions: seq<Action>, codes: Codes, s: State, stream: string, action: nat, device: string,
                      openedFails: bool): State
    requires |s.subs| == |actions|
  {
    var connected := s.(connections := s.connections + {stream});
    var (joined, threw) :=
      if UsesChannel(actions, action, device) then JoinChannel(actions, codes, connected, stream, action, device)
      else (connected, false);
    if threw then joined
    else joined.(listeners := joined.listeners[stream := Registration(action, device)],
                 ended := if openedFails then joined.ended + {stream} else joined.ended)
  }

  function CloseStream(actions: seq<Action>, s: State, stream: string): State
    requires |s.subs| == |actions|
  {
    if stream !in s.listeners then s
    else
      var r := s.listeners[stream];
      var subs :=
        if UsesChannel(actions, r.action, r.device)
        then s.subs[r.action := Unsubscribe(s.subs[r.action], r.device, stream)]
        else s.subs;
      State(s.connections - {stream}, s.listeners - {stream}, s.ended, subs)
  }

  function Step(actions: seq<Action>, codes: Codes, s: State, e: Event): (s': State)
    requires |s.subs| == |actions|
    ensures |s'.subs| == |actions|
  {
    match e
    case Open(stream, action, device, fails) =>
      OpenStream(actions, codes, s, stream, action, device, fails)
    case Close(stream) => CloseStream(actions, s, stream)
  }

  /** The state after a run. */
  function Run(actions: seq<Action>, codes: Codes, trace: seq<Event>): (s: State)
    ensures |s.subs| == |actions|
  {
    if trace == [] then Initial(actions)
    else Step(actions, codes, Run(actions, codes, trace[..|trace| - 1]), trace[|trace| - 1])
  }

  // --- Runs ---

  predicate Opens(e: Event, stream: string) {
    e.Open? && e.stream == stream
  }

  /** Stream ids are fresh, and only opened streams close. */
  ghost predicate Valid(actions: seq<Action>, trace: seq<Event>) {
    && (forall i :: 0 <= i < |trace| && trace[i].Open? ==> trace[i].action < |actions|)
    && (forall i, j :: 0 <= i < j < |trace| && trace[j].Open? ==> !Opens(trace[i], trace[j].stream))
    && (forall j :: 0 <= j < |trace| && trace[j].Close? ==> exists i :: 0 <= i < j && Opens(trace[i], trace[j].stream))
  }

  ghost predicate OpenedIn(trace: seq<Event>, stream: string) {
    exists i :: 0 <= i < |trace| && Opens(trace[i], stream)
  }

  predicate ClosedIn(trace: seq<Event>, stream: string) {
    Close(stream) in trace
  }
}
