/** The stream handlers of the service and the subscription lists of its actions, as objects. */
module StreamService {
  import opened StreamProtocol

  /** Removing the first subscription of a stream is removing the entry at the first index that holds it. */
  lemma {:induction false} RemoveFirstAt(list: seq<Subscription>, streamId: string, i: nat)
    requires i <= |list| && forall j :: 0 <= j < i ==> list[j].streamId != streamId
    requires i < |list| ==> list[i].streamId == streamId
    ensures RemoveFirst(list, streamId) == if i < |list| then list[..i] + list[i + 1..] else list
  {
    if i > 0 {
      RemoveFirstAt(list[1..], streamId, i - 1);
      var rest := RemoveFirst(list[1..], streamId);
      assert RemoveFirst(list, streamId) == [list[0]] + rest;
      if i < |list| {
        assert rest == list[1..][..i - 1] + list[1..][i..];
        assert list[1..][i..] == list[i + 1..];
        assert [list[0]] + list[1..][..i - 1] == list[..i];
      }
    }
  }

  datatype Outcome = Done | Threw(code: int, existing: seq<string>)

  /** An action that streams to devices. */
  class ServerStreamAction {
    const policy: Policy
    var deviceSubscriptions: Subscriptions

    constructor (policy: Policy)
      ensures this.policy == policy && deviceSubscriptions == map[]
    {
      this.policy := policy;
      deviceSubscriptions := map[];
    }

    method SubscribeChannel(codes: Codes, mobileUid: string, sub: Subscription) returns (r: Outcome)
      modifies this
      ensures match Subscribe(policy, codes, old(deviceSubscriptions), mobileUid, sub)
        case Subscribed(subs) => r == Done && deviceSubscriptions == subs
        case Thrown(code, existing) => r == Threw(code, existing) && deviceSubscriptions == old(deviceSubscriptions)
    {
      var subscriptions := if mobileUid in deviceSubscriptions then deviceSubscriptions[mobileUid] else [];
      match policy {
        case RejectNew =>
          if |subscriptions| > 0 {
            return Threw(codes.plainError, []);
          }
        case ClosePrevious =>
          if |subscriptions| > 0 {
            return Threw(codes.badRequest, StreamIds(subscriptions));
          }
        case AllowMultiple =>
      }
      subscriptions := subscriptions + [sub];
      deviceSubscriptions := deviceSubscriptions[mobileUid := subscriptions];
      r := Done;
    }

    method UnsubscribeChannel(mobileUid: string, streamId: string)
      modifies this
      ensures deviceSubscriptions == Unsubscribe(old(deviceSubscriptions), mobileUid, streamId)
    {
      if mobileUid in deviceSubscriptions {
        var subscriptions := deviceSubscriptions[mobileUid];
        var i := 0;
        while i < |subscriptions| && subscriptions[i].streamId != streamId
          invariant 0 <= i <= |subscriptions|
          invariant forall j :: 0 <= j < i ==> subscriptions[j].streamId != streamId
        {
          i := i + 1;
        }
        RemoveFirstAt(subscriptions, streamId, i);
        if i < |subscriptions| {
          subscriptions := subscriptions[..i] + subscriptions[i + 1..];
          deviceSubscriptions := deviceSubscriptions[mobileUid := subscriptions];
        }
      }
    }

    /** The writes made when publishing: the connection written to, and the data. */
    method PublishToChannel<T>(mobileUid: string, data: T) returns (writes: seq<(string, T)>)
      ensures |writes| == |DeviceList(deviceSubscriptions, mobileUid)|
      ensures forall i :: 0 <= i < |writes| ==> writes[i] == (DeviceList(deviceSubscriptions, mobileUid)[i].sink, data)
    {
      writes := [];
      if mobileUid in deviceSubscriptions {
        var subscriptions := deviceSubscriptions[mobileUid];
        for i := 0 to |subscriptions|
          invariant |writes| == i
          invariant forall j :: 0 <= j < i ==> writes[j] == (subscriptions[j].sink, data)
        {
          writes := writes + [(subscriptions[i].sink, data)];
        }
      }
    }
  }

  datatype Slot = Streaming(action: ServerStreamAction) | Other

  /** The service: registered connections, attached close listeners, and the connections told to end. */
  class GrpcStreamService {
    const actions: seq<Slot>
    const codes: Codes
    var streamConnections: set<string>
    var listeners: map<string, Registration>
    var ended: set<string>

    constructor (actions: seq<Slot>, codes: Codes)
      requires forall i, j :: 0 <= i < j < |actions| && actions[i].Streaming? && actions[j].Streaming? ==>
                 actions[i].action != actions[j].action
      requires forall i :: 0 <= i < |actions| && actions[i].Streaming? ==>
          actions[i].action.deviceSubscriptions == map[]
      ensures Separate() && this.actions == actions && this.codes == codes
      ensures Abstract() == Initial(Config())
    {
      this.actions, this.codes := actions, codes;
      streamConnections, listeners, ended := {}, map[], {};
      new;
      assert Abstract().subs == Initial(Config()).subs;
    }

    /** Different slots hold different action objects. */
    ghost predicate Separate() {
      forall i, j :: 0 <= i < j < |actions| && actions[i].Streaming? && actions[j].Streaming? ==>
        actions[i].action != actions[j].action
    }

    ghost function Channels(): set<ServerStreamAction> {
      set i | 0 <= i < |actions| && actions[i].Streaming? :: actions[i].action
    }

    ghost function Config(): seq<Action> {
      seq(|actions|, i requires 0 <= i < |actions| =>
        if actions[i].Streaming? then Channel(actions[i].action.policy) else NoChannel)
    }

    ghost function Subs(): seq<Subscriptions>
      reads Channels()
    {
      seq(|actions|, i requires 0 <= i < |actions| reads Channels() =>
        if actions[i].Streaming? then actions[i].action.deviceSubscriptions else map[])
    }

    ghost function Abstract(): State
      reads this, Channels()
    {
      State(streamConnections, listeners, ended, Subs())
    }

    /** A change to one action's table is a change of one entry. */
    twostate lemma OneTableChanged(action: nat)
      requires Separate() && action < |actions| && actions[action].Streaming?
      requires forall c :: c in Channels() && c != actions[action].action ==>
                 c.deviceSubscriptions == old(c.deviceSubscriptions)
      ensures Subs() == old(Subs())[action := actions[action].action.deviceSubscriptions]
    {
      forall i | 0 <= i < |actions| && actions[i].Streaming?
        ensures i != action ==> actions[i].action.deviceSubscriptions == old(actions[i].action.deviceSubscriptions)
      {
        assert actions[i].action in Channels();
      }
    }

    method OpenStream(streamId: string, action: nat, mobileUid: string, openedFails: bool)
      requires Separate() && action < |actions|
      modifies this, Channels()
      ensures Abstract() ==
              StreamProtocol.OpenStream(Config(), codes, old(Abstract()), streamId, action, mobileUid, openedFails)
    {
      streamConnections := streamConnections + {streamId};
      if actions[action].Streaming? && mobileUid != "" {
        var threw := JoinChannel(streamId, action, mobileUid);
        if threw {
          return;
        }
      }
      if openedFails {
        ended := ended + {streamId};
      }
      listeners := listeners[streamId := Registration(action, mobileUid)];
    }

    /** Calling `subscribeChannel` on the action in a slot. */
    method SubscribeAt(action: nat, mobileUid: string, sub: Subscription) returns (r: Outcome)
      requires Separate() && action < |actions| && actions[action].Streaming?
      modifies Channels()
      ensures match Subscribe(actions[action].action.policy, codes, old(Subs())[action], mobileUid, sub)
        case Subscribed(subs) => r == Done && Subs() == old(Subs())[action := subs]
        case Thrown(code, existing) => r == Threw(code, existing) && Subs() == old(Subs())
    {
      assert actions[action].action in Channels();
      r := actions[action].action.SubscribeChannel(codes, mobileUid, sub);
      OneTableChanged(action);
    }

    /** Calling `unsubscribeChannel` on the action in a slot. */
    method UnsubscribeAt(action: nat, mobileUid: string, streamId: string)
      requires Separate() && action < |actions| && actions[action].Streaming?
      modifies Channels()
      ensures Subs() == old(Subs())[action := Unsubscribe(old(Subs())[action], mobileUid, streamId)]
    {
      assert actions[action].action in Channels();
      actions[action].action.UnsubscribeChannel(mobileUid, streamId);
      OneTableChanged(action);
    }

    /** Subscribing a new stream, superseding existing ones when told to. */
    method JoinChannel(streamId: string, action: nat, mobileUid: string) returns (threw: bool)
      requires Separate() && action < |actions| && actions[action].Streaming? && mobileUid != ""
      modifies this`ended, Channels()
      ensures (Abstract(), threw) ==
              StreamProtocol.JoinChannel(Config(), codes, old(Abstract()), streamId, action, mobileUid)
    {
      var sub := Subscription(streamId, streamId);
      var outcome := SubscribeAt(action, mobileUid, sub);
      match outcome
      case Done =>
        threw := false;
      case Threw(code, existing) =>
        if code == SUBSCRIPTIONS_EXISTS {
          EndConnections(action, mobileUid, existing);
          outcome := SubscribeAt(action, mobileUid, sub);
          threw := outcome.Threw?;
        } else {
          ended := ended + {streamId};
          threw := false;
        }
    }

    method EndConnections(action: nat, mobileUid: string, existing: seq<string>)
      requires Separate() && action < |actions| && actions[action].Streaming?
      modifies this`ended, Channels()
      ensures Abstract() == EndExisting(old(Abstract()), action, mobileUid, existing)
    {
      for k := 0 to |existing|
        invariant Abstract() == EndExisting(old(Abstract()), action, mobileUid, existing[..k])
      {
        assert existing[..k + 1][..k] == existing[..k];
        if existing[k] in streamConnections {
          UnsubscribeAt(action, mobileUid, existing[k]);
          ended := ended + {existing[k]};
        }
      }
      assert existing[..|existing|] == existing;
    }

    /** The close listener of a stream. */
    method CloseStream(streamId: string)
      requires Separate()
      requires forall st :: st in listeners ==> listeners[st].action < |actions|
      modifies this, Channels()
      ensures Abstract() == StreamProtocol.CloseStream(Config(), old(Abstract()), streamId)
    {
      if streamId !in listeners {
        return;
      }
      var r := listeners[streamId];
      if actions[r.action].Streaming? && r.device != "" {
        UnsubscribeAt(r.action, r.device, streamId);
      }
      streamConnections := streamConnections - {streamId};
      listeners := listeners - {streamId};
    }

    /** Stopping the service ends every connection and forgets them; subscriptions stay until their streams close. */
    method OnDestroy()
      modifies this
      ensures streamConnections == {} && ended == old(ended) + old(streamConnections)
      ensures listeners == old(listeners)
    {
      var remaining := streamConnections;
      while remaining != {}
        invariant remaining <= old(streamConnections) && streamConnections == old(streamConnections)
        invariant ended == old(ended) + (old(streamConnections) - remaining)
        invariant listeners == old(listeners)
      {
        var connection :| connection in remaining;
        ended := ended + {connection};
        remaining := remaining - {connection};
      }
      streamConnections := {};
    }
  }
}
