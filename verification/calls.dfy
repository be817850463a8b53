/** Incoming calls and their notifications (src/callsmanager.cpp:74-122, 187-195, 431-446 and
    src/notificationmanager.cpp:647-721). */
module Calls {

  datatype CallState = Pending | ExchangingKeys | HangingUp | Discarded | Error | Ready

  function TdCallState(name: string): CallState {
    if name == "callStatePending" then Pending
    else if name == "callStateExchangingKeys" then ExchangingKeys
    else if name == "callStateReady" then Ready
    else if name == "callStateHangingUp" then HangingUp
    else if name == "callStateDiscarded" then Discarded
    else if name == "callStateError" then Error
    else Discarded
  }

  datatype Call = Call(outgoing: bool, state: CallState)

  /** What was last asked of the LED for calls. */
  datatype Led = NeverSet | Off | On

  /** A call the user has to answer. */
  predicate Waiting(call: Call) {
    !call.outgoing && call.state.Pending?
  }

  predicate WaitingIn(latest: map<int, Call>, id: int) {
    id in latest && Waiting(latest[id])
  }

  /** The latest updates of all calls; calls that are kept are as last updated. */
  ghost predicate UpToDate(active: map<int, Call>, latest: map<int, Call>) {
    forall id :: id in active ==> id in latest && active[id] == latest[id]
  }

  /** A call has a notification exactly when its latest update says that it waits. */
  ghost predicate Right(notifications: set<int>, latest: map<int, Call>) {
    forall id :: id in notifications <==> WaitingIn(latest, id)
  }

  /** What an update does to the notifications: a new waiting call gets one, and a call that is new or was pending
      loses it when it is not pending any more. */
  function NotificationsAfter(active: map<int, Call>, notifications: set<int>, id: int, call: Call): set<int> {
    var newCall := id !in active;
    var wasPending := !newCall && active[id].state.Pending?;
    if newCall && Waiting(call) then notifications + {id}
    else if !call.outgoing && (newCall || wasPending) && !call.state.Pending? then notifications - {id}
    else notifications
  }

  /** Whether an update turns a waiting call into an outgoing one, or makes a known call wait that did not. */
  predicate Unexpected(active: map<int, Call>, latest: map<int, Call>, id: int, call: Call) {
    || (call.outgoing && WaitingIn(latest, id))
    || (Waiting(call) && id in active && !WaitingIn(latest, id))
  }

  /** The direction of a call never changes, and a call that is not pending never is again. */
  predicate Possible(latest: map<int, Call>, id: int, call: Call) {
    id in latest ==> latest[id].outgoing == call.outgoing && (call.state.Pending? ==> latest[id].state.Pending?)
  }

  /** Notifications that are right stay right exactly when the update is not an unexpected one, and possible updates
      are not. */
  lemma {:induction false} UpdateExact(active: map<int, Call>, latest: map<int, Call>, notifications: set<int>,
        id: int, call: Call)
    requires UpToDate(active, latest) && Right(notifications, latest)
    ensures Right(NotificationsAfter(active, notifications, id, call), latest[id := call])
            <==> !Unexpected(active, latest, id, call)
    ensures Possible(latest, id, call) ==> !Unexpected(active, latest, id, call)
  {
    var after := NotificationsAfter(active, notifications, id, call);
    var now := latest[id := call];
    assert forall other :: other != id ==> (other in after <==> other in notifications);
    assert forall other :: other != id ==> (WaitingIn(now, other) <==> WaitingIn(latest, other));
    assert id in notifications <==> WaitingIn(latest, id);
    assert WaitingIn(now, id) <==> Waiting(call);
    if !Unexpected(active, latest, id, call) {
      assert id in after <==> Waiting(call);
    } else {
      assert !(id in after <==> WaitingIn(now, id));
    }
  }

  class NotificationManager {
    var callNotifications: set<int>
    var led: Led

    /** Once a notification has been shown, the LED is on exactly while there is one. */
    ghost predicate Valid()
      reads this
    {
      if callNotifications != {} then led.On? else !led.On?
    }

    constructor ()
      ensures Valid() && callNotifications == {} && led.NeverSet?
    {
      callNotifications, led := {}, NeverSet;
    }

    method PublishCallNotification(manager: CallsManager, callId: int)
      requires Valid()
      modifies this
      ensures Valid()
      ensures callNotifications
              == if callId in manager.activeCalls then old(callNotifications) + {callId} else old(callNotifications)
      ensures led.NeverSet? ==> old(led).NeverSet?
    {
      if callId in manager.activeCalls {
        if callId !in callNotifications {
          callNotifications := callNotifications + {callId};
        }
        ControlCallState(true);
      }
    }

    method RemoveCallNotification(id: int)
      requires Valid()
      modifies this
      ensures Valid() && callNotifications == old(callNotifications) - {id}
      ensures led.NeverSet? <==> old(led).NeverSet?
    {
      if id in callNotifications {
        callNotifications := callNotifications - {id};
        if callNotifications == {} {
          ControlCallState(false);
        }
      }
    }

    method ControlCallState(enabled: bool)
      modifies `led
      ensures led == if enabled then On else Off
    {
      led := if enabled then On else Off;
    }
  }

  datatype Event =
    | CallUpdated(id: int, outgoing: bool, stateName: string)
    | CallIdReceived(id: int)
    | Accepted(id: int)
    | Discarding(id: int)

  function LatestAfter(latest: map<int, Call>, event: Event): map<int, Call> {
    if event.CallUpdated? then latest[event.id := Call(event.outgoing, TdCallState(event.stateName))] else latest
  }

  function LatestOf(latest: map<int, Call>, events: seq<Event>): map<int, Call> {
    if events == [] then latest else LatestAfter(LatestOf(latest, events[..|events| - 1]), events[|events| - 1])
  }

  predicate PossibleRun(latest: map<int, Call>, events: seq<Event>) {
    forall k :: 0 <= k < |events| && events[k].CallUpdated? ==>
      Possible(LatestOf(latest, events[..k]), events[k].id, Call(events[k].outgoing, TdCallState(events[k].stateName)))
  }

  class CallsManager {
    const notifications: NotificationManager
    var activeCalls: map<int, Call>
    /** The current call; 0 for none. */
    var currentCallId: int
    /** The latest update of every call. */
    ghost var latest: map<int, Call>

    ghost predicate Valid()
      reads this, notifications
    {
      && UpToDate(activeCalls, latest)
      && Right(notifications.callNotifications, latest)
      && notifications.Valid()
    }

    constructor ()
      ensures Valid() && fresh(notifications) && latest == map[] && currentCallId == 0
    {
      notifications := new NotificationManager();
      activeCalls, currentCallId, latest := map[], 0, map[];
    }

    method HandleCallUpdated(id: int, outgoing: bool, stateName: string)
      requires Valid() && Possible(latest, id, Call(outgoing, TdCallState(stateName)))
      modifies this, notifications
      ensures Valid() && latest == LatestAfter(old(latest), CallUpdated(id, outgoing, stateName))
      ensures id in notifications.callNotifications <==> !outgoing && stateName == "callStatePending"
      ensures forall other :: other != id ==>
                (other in notifications.callNotifications <==> other in old(notifications.callNotifications))
      ensures currentCallId == old(currentCallId)
    {
      var call := Call(outgoing, TdCallState(stateName));
      UpdateExact(activeCalls, latest, notifications.callNotifications, id, call);
      var newCall := id !in activeCalls;
      var wasPending := !newCall && activeCalls[id].state.Pending?;
      activeCalls := activeCalls[id := call];
      latest := latest[id := call];
      if newCall && !call.outgoing && call.state.Pending? {
        notifications.PublishCallNotification(this, id);
      } else if !call.outgoing && (newCall || wasPending) && !call.state.Pending? {
        notifications.RemoveCallNotification(id);
      }
    }

    method SetCurrentCallId(id: int)
      requires Valid()
      modifies `activeCalls, `currentCallId
      ensures Valid() && currentCallId == id
      ensures activeCalls == if old(currentCallId) != 0 then old(activeCalls) - {old(currentCallId)}
                             else old(activeCalls)
    {
      if currentCallId != 0 {
        activeCalls := activeCalls - {currentCallId};
      }
      currentCallId := id;
    }

    method DiscardCall(id: int)
      requires Valid()
      modifies `activeCalls
      ensures Valid()
      ensures activeCalls == if currentCallId != id then old(activeCalls) - {id} else old(activeCalls)
    {
      if currentCallId != id && id in activeCalls {
        activeCalls := activeCalls - {id};
      }
    }

    /** After any run of possible events the notifications and the LED are right. */
    method Run(events: seq<Event>)
      requires Valid() && PossibleRun(latest, events)
      modifies this, notifications
      ensures Valid() && latest == LatestOf(old(latest), events)
    {
      for k := 0 to |events|
        invariant Valid() && latest == LatestOf(old(latest), events[..k])
      {
        assert events[..k + 1][..k] == events[..k];
        match events[k]
        case CallUpdated(id, outgoing, stateName) => HandleCallUpdated(id, outgoing, stateName);
        case CallIdReceived(id) => SetCurrentCallId(id);
        case Accepted(id) => SetCurrentCallId(id);
        case Discarding(id) => DiscardCall(id);
      }
      assert events[..|events|] == events;
    }
  }
}
