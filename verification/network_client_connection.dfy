/**
 The client side of a reliable (TCP) connection: the guards of `Connect`
 and the dispatch of the connect completion to exactly one of the
 `Connected` / `ConnectionFailed` notifications. The socket is an abstract
 completion: whether `ConnectAsync`/`ReceiveAsync` finish synchronously and
 with which `SocketError` are inputs. What each step does is recorded as a
 trace of effects, so ordering can be stated.
 */
module NetworkClientConnection {
  import opened Exceptions

  /** The `MessageTypes` flags requested of a connection. */
  datatype MessageTypes = MessageTypes(reliable: bool, unreliable: bool)

  /** A remote `EndPoint`. */
  datatype EndPoint = EndPoint(address: string)

  /** The completion status of a socket operation. */
  datatype SocketError = Success | SocketFailure(code: int)

  /** A subscriber of one of the two events. */
  datatype Handler = Handler(id: nat)

  datatype Notification = Connected | ConnectionFailed

  /** One observable step of a connect. */
  datatype Effect =
    | SocketCreated(socket: nat)
    | ConnectStarted(endpoint: EndPoint)
    | Disconnect(now: bool)
    | ReceiveBufferSet(offset: nat, count: nat)
    | ReaderCreated(bufferLength: nat)
    | ReceiveStarted
      /** `ReliableReceiveCompleted`, run inline because `ReceiveAsync` finished synchronously. */
    | ReceiveCompletedInline
      /** `OnConnected` / `OnConnectionFailed` was called. */
    | Raised(kind: Notification)
    | HandlerInvoked(handler: Handler, kind: Notification)

  /**
   The connection state this code reads and writes. `isConnected` is the
   inherited `IsConnected`; `bufferLength` is the length of the inherited
   `rmessageBuffer`; sockets are numbered in creation order.
   */
  datatype Client = Client(
    isConnected: bool,
    bufferLength: nat,
    socketsCreated: nat,
    reliableSocket: Option<nat>,
    connectedHandlers: seq<Handler>,
    connectionFailedHandlers: seq<Handler>)

  /** A state change with the effects it performed, in order. */
  datatype Transition = Transition(client: Client, effects: seq<Effect>)

  /**
   How the socket behaves for one connect: whether `ConnectAsync` is still
   pending when it returns, the connect's `SocketError`, and whether the
   first `ReceiveAsync` is still pending when it returns.
   */
  datatype SocketBehaviour = SocketBehaviour(connectPending: bool, connectResult: SocketError, receivePending: bool)

  /**
   Raising an event: each subscriber is invoked in subscription order; with
   no subscribers nothing happens.
   */
  function Invoke(handlers: seq<Handler>, kind: Notification): (r: seq<Effect>)
    ensures |r| == |handlers|
    ensures forall j :: 0 <= j < |r| ==> r[j] == HandlerInvoked(handlers[j], kind)
  {
    if handlers == [] then [] else [HandlerInvoked(handlers[0], kind)] + Invoke(handlers[1..], kind)
  }

  /** `OnConnected`. */
  function OnConnected(client: Client): (r: seq<Effect>)
    ensures client.connectedHandlers == [] ==> r == [Raised(Connected)]
    ensures |r| == |client.connectedHandlers| + 1 && r[0] == Raised(Connected)
    ensures forall j :: 0 <= j < |client.connectedHandlers| ==>
              r[j + 1] == HandlerInvoked(client.connectedHandlers[j], Connected)
    ensures forall e :: e in r ==> e == Raised(Connected) || (e.HandlerInvoked? && e.kind == Connected)
  {
    [Raised(Connected)] + Invoke(client.connectedHandlers, Connected)
  }

  /** `OnConnectionFailed`. */
  function OnConnectionFailed(client: Client): (r: seq<Effect>)
    ensures client.connectionFailedHandlers == [] ==> r == [Raised(ConnectionFailed)]
    ensures |r| == |client.connectionFailedHandlers| + 1 && r[0] == Raised(ConnectionFailed)
    ensures forall j :: 0 <= j < |client.connectionFailedHandlers| ==>
              r[j + 1] == HandlerInvoked(client.connectionFailedHandlers[j], ConnectionFailed)
    ensures forall e :: e in r ==> e == Raised(ConnectionFailed) || (e.HandlerInvoked? && e.kind == ConnectionFailed)
  {
    [Raised(ConnectionFailed)] + Invoke(client.connectionFailedHandlers, ConnectionFailed)
  }

  /**
   `ConnectCompleted`: a failed connect disconnects and raises
   `ConnectionFailed`; a successful one points the receive at the whole
   message buffer, builds a reader over it, starts the first receive
   (processing it inline if it finished synchronously) and then raises
   `Connected`.
   */
  function ConnectCompleted(client: Client, result: SocketError, receivePending: bool): (r: Transition)
    ensures r.client == client
    ensures ReceiveStarted in r.effects <==> result.Success?
    ensures Disconnect(true) in r.effects <==> result.SocketFailure?
    ensures ReceiveCompletedInline in r.effects <==> result.Success? && !receivePending
  {
    if result.SocketFailure? then
      Transition(client, [Disconnect(true)] + OnConnectionFailed(client))
    else
      var receive := [ReceiveBufferSet(0, client.bufferLength), ReaderCreated(client.bufferLength), ReceiveStarted];
      var handled := if receivePending then [] else [ReceiveCompletedInline];
      Transition(client, receive + handled + OnConnected(client))
  }

  /**
   `Connect`: rejects a `null` endpoint, then a request for the unreliable
   channel, then a connection that is already connected, in that order;
   otherwise creates a fresh socket and starts the connect, running the
   completion inline when `ConnectAsync` finished synchronously.
   */
  function Connect(client: Client, endpoint: Option<EndPoint>, messageTypes: MessageTypes, socket: SocketBehaviour): (r: Result<Transition>)
    ensures endpoint.None? ==> r == Throw(ArgumentNull("endpoint"))
    ensures endpoint.Some? && messageTypes.unreliable ==> r == Throw(NotSupported)
    ensures endpoint.Some? && !messageTypes.unreliable && client.isConnected ==> r == Throw(InvalidOperation("Already connected"))
    ensures r.Ok? <==> endpoint.Some? && !messageTypes.unreliable && !client.isConnected
    ensures r.Ok? ==>
              && r.value.client == client.(socketsCreated := client.socketsCreated + 1, reliableSocket := Some(client.socketsCreated))
              && |r.value.effects| >= 2
              && r.value.effects[..2] == [SocketCreated(client.socketsCreated), ConnectStarted(endpoint.value)]
              && (socket.connectPending <==> |r.value.effects| == 2)
  {
    if endpoint.None? then Throw(ArgumentNull("endpoint"))
    else if messageTypes.unreliable then Throw(NotSupported)
    else if client.isConnected then Throw(InvalidOperation("Already connected"))
    else
      var socketId := client.socketsCreated;
      var started := client.(socketsCreated := socketId + 1, reliableSocket := Some(socketId));
      var effects := [SocketCreated(socketId), ConnectStarted(endpoint.value)];
      if socket.connectPending then
        Ok(Transition(started, effects))
      else
        var completed := ConnectCompleted(started, socket.connectResult, socket.receivePending);
        Ok(Transition(completed.client, effects + completed.effects))
  }

  /** How many times `e` occurs in a trace. */
  function Count(effects: seq<Effect>, e: Effect): nat
  {
    if effects == [] then 0 else (if effects[0] == e then 1 else 0) + Count(effects[1..], e)
  }

  lemma {:induction false} CountAppend(a: seq<Effect>, b: seq<Effect>, e: Effect)
    ensures Count(a + b, e) == Count(a, e) + Count(b, e)
  {
    if a == [] {
      assert a + b == b;
    } else {
      assert (a + b)[1..] == a[1..] + b;
      CountAppend(a[1..], b, e);
    }
  }

  lemma {:induction false} CountAbsent(a: seq<Effect>, e: Effect)
    requires e !in a
    ensures Count(a, e) == 0
  {
    if a != [] {
      CountAbsent(a[1..], e);
    }
  }

  lemma CountSingleton(x: Effect, e: Effect)
    ensures Count([x], e) == if x == e then 1 else 0
  {
    assert [x][1..] == [];
  }

  /** How many times `OnConnected` or `OnConnectionFailed` was called. */
  function Notifications(effects: seq<Effect>): nat
  {
    Count(effects, Raised(Connected)) + Count(effects, Raised(ConnectionFailed))
  }

  /** The notifications of a trace made of two parts are those of the parts. */
  lemma NotificationsAppend(a: seq<Effect>, b: seq<Effect>)
    ensures Notifications(a + b) == Notifications(a) + Notifications(b)
  {
    CountAppend(a, b, Raised(Connected));
    CountAppend(a, b, Raised(ConnectionFailed));
  }

  /** A trace with no `Raised` effect holds no notification. */
  lemma NoNotifications(a: seq<Effect>)
    requires Raised(Connected) !in a && Raised(ConnectionFailed) !in a
    ensures Notifications(a) == 0
  {
    CountAbsent(a, Raised(Connected));
    CountAbsent(a, Raised(ConnectionFailed));
  }

  /**
   Every completion raises exactly one of the two notifications, the one
   matching its outcome.
   */
  lemma ExactlyOneNotification(client: Client, result: SocketError, receivePending: bool)
    ensures var t := ConnectCompleted(client, result, receivePending);
            && Notifications(t.effects) == 1
            && (Raised(Connected) in t.effects <==> result.Success?)
            && (Raised(ConnectionFailed) in t.effects <==> result.SocketFailure?)
  {
    if result.Success? {
      var receive := [ReceiveBufferSet(0, client.bufferLength), ReaderCreated(client.bufferLength), ReceiveStarted];
      var handled := if receivePending then [] else [ReceiveCompletedInline];
      OneNotification(receive + handled, client.connectedHandlers, Connected);
    } else {
      OneNotification([Disconnect(true)], client.connectionFailedHandlers, ConnectionFailed);
    }
  }

  /** A trace that raises one event between two parts that raise none. */
  lemma OneNotification(before: seq<Effect>, handlers: seq<Handler>, kind: Notification)
    requires Raised(Connected) !in before && Raised(ConnectionFailed) !in before
    ensures var effects := before + ([Raised(kind)] + Invoke(handlers, kind));
            && Notifications(effects) == 1
            && Raised(kind) in effects
            && forall other: Notification :: other != kind ==> Raised(other) !in effects
  {
    var invoked := Invoke(handlers, kind);
    var effects := before + ([Raised(kind)] + invoked);
    assert effects[|before|] == Raised(kind);
    NoNotifications(before);
    NoNotifications(invoked);
    CountSingleton(Raised(kind), Raised(Connected));
    CountSingleton(Raised(kind), Raised(ConnectionFailed));
    NotificationsAppend([Raised(kind)], invoked);
    NotificationsAppend(before, [Raised(kind)] + invoked);
  }

  /**
   The subscribers of the raised event are invoked, in subscription order,
   at the end of the completion; the subscribers of the other event never are.
   */
  lemma OnlyRaisedEventsHandlersRun(client: Client, result: SocketError, receivePending: bool)
    ensures var t := ConnectCompleted(client, result, receivePending);
            result.Success? ==>
              && |client.connectedHandlers| <= |t.effects|
              && t.effects[|t.effects| - |client.connectedHandlers|..] == Invoke(client.connectedHandlers, Connected)
              && forall j :: 0 <= j < |t.effects| ==> !t.effects[j].HandlerInvoked? || t.effects[j].kind == Connected
    ensures var t := ConnectCompleted(client, result, receivePending);
            result.SocketFailure? ==>
              && |client.connectionFailedHandlers| <= |t.effects|
              && t.effects[|t.effects| - |client.connectionFailedHandlers|..] == Invoke(client.connectionFailedHandlers, ConnectionFailed)
              && forall j :: 0 <= j < |t.effects| ==> !t.effects[j].HandlerInvoked? || t.effects[j].kind == ConnectionFailed
  {
    if result.Success? {
      ConnectedHandlersRun(client, receivePending);
    } else {
      FailedHandlersRun(client, result.code);
    }
  }

  /** The successful half of `OnlyRaisedEventsHandlersRun`. */
  lemma ConnectedHandlersRun(client: Client, receivePending: bool)
    ensures var t := ConnectCompleted(client, Success, receivePending);
            && |client.connectedHandlers| <= |t.effects|
            && t.effects[|t.effects| - |client.connectedHandlers|..] == Invoke(client.connectedHandlers, Connected)
            && forall j :: 0 <= j < |t.effects| ==> !t.effects[j].HandlerInvoked? || t.effects[j].kind == Connected
  {
    var receive := [ReceiveBufferSet(0, client.bufferLength), ReaderCreated(client.bufferLength), ReceiveStarted];
    var handled := if receivePending then [] else [ReceiveCompletedInline];
    InvokedAtEnd(receive + handled, client.connectedHandlers, Connected);
  }

  /** The failing half of `OnlyRaisedEventsHandlersRun`. */
  lemma FailedHandlersRun(client: Client, code: int)
    ensures var t := ConnectCompleted(client, SocketFailure(code), false);
            && |client.connectionFailedHandlers| <= |t.effects|
            && t.effects[|t.effects| - |client.connectionFailedHandlers|..] == Invoke(client.connectionFailedHandlers, ConnectionFailed)
            && forall j :: 0 <= j < |t.effects| ==> !t.effects[j].HandlerInvoked? || t.effects[j].kind == ConnectionFailed
  {
    InvokedAtEnd([Disconnect(true)], client.connectionFailedHandlers, ConnectionFailed);
  }

  /**
   When nothing before the notification invokes a subscriber, the subscribers
   invoked are exactly the trace's end, all for the raised event.
   */
  lemma InvokedAtEnd(before: seq<Effect>, handlers: seq<Handler>, kind: Notification)
    requires forall j :: 0 <= j < |before| ==> !before[j].HandlerInvoked?
    ensures var effects := before + ([Raised(kind)] + Invoke(handlers, kind));
            && |handlers| <= |effects|
            && effects[|effects| - |handlers|..] == Invoke(handlers, kind)
            && forall j :: 0 <= j < |effects| ==> !effects[j].HandlerInvoked? || effects[j].kind == kind
  {
    var invoked := Invoke(handlers, kind);
    var effects := before + ([Raised(kind)] + invoked);
    assert effects[|before| + 1..] == invoked;
    forall j | 0 <= j < |effects|
      ensures !effects[j].HandlerInvoked? || effects[j].kind == kind
    {
      if j > |before| {
        assert effects[j] == invoked[j - |before| - 1];
      }
    }
  }

  /**
   A failed completion disconnects before it notifies and touches nothing of
   the receive side: after the raise come only subscriber invocations. A
   successful one never disconnects; the receive is set up over the whole
   buffer and started, and processed if it finished synchronously, before
   `Connected` is raised, and after the raise come only subscriber
   invocations.
   */
  lemma CompletionOrdering(client: Client, result: SocketError, receivePending: bool)
    ensures var t := ConnectCompleted(client, result, receivePending);
            result.SocketFailure? ==>
              && |t.effects| == 2 + |client.connectionFailedHandlers|
              && t.effects[0] == Disconnect(true) && t.effects[1] == Raised(ConnectionFailed)
              && (forall j :: 2 <= j < |t.effects| ==> t.effects[j].HandlerInvoked?)
              && ReceiveStarted !in t.effects && ReceiveCompletedInline !in t.effects
    ensures var t := ConnectCompleted(client, result, receivePending);
            result.Success? ==>
              && (forall j :: 0 <= j < |t.effects| ==> !t.effects[j].Disconnect?)
              && exists k :: 3 <= k < |t.effects| && t.effects[k] == Raised(Connected)
                          && |t.effects| == k + 1 + |client.connectedHandlers|
                          && t.effects[..k] == [ReceiveBufferSet(0, client.bufferLength), ReaderCreated(client.bufferLength), ReceiveStarted]
                                               + (if receivePending then [] else [ReceiveCompletedInline])
                          && (forall j :: k < j < |t.effects| ==> t.effects[j].HandlerInvoked?)
                          && Disconnect(true) !in t.effects
  {
    var t := ConnectCompleted(client, result, receivePending);
    if result.SocketFailure? {
      var invoked := Invoke(client.connectionFailedHandlers, ConnectionFailed);
      assert t.effects == [Disconnect(true), Raised(ConnectionFailed)] + invoked;
      assert ReceiveStarted !in invoked && ReceiveCompletedInline !in invoked;
      forall j | 2 <= j < |t.effects|
        ensures t.effects[j].HandlerInvoked?
      {
        assert t.effects[j] == invoked[j - 2];
      }
    } else {
      var prefix := [ReceiveBufferSet(0, client.bufferLength), ReaderCreated(client.bufferLength), ReceiveStarted]
                    + (if receivePending then [] else [ReceiveCompletedInline]);
      var invoked := Invoke(client.connectedHandlers, Connected);
      assert t.effects == prefix + [Raised(Connected)] + invoked;
      assert Disconnect(true) !in invoked;
      var k := |prefix|;
      assert t.effects[k] == Raised(Connected) && t.effects[..k] == prefix;
      forall j | 0 <= j < |t.effects|
        ensures !t.effects[j].Disconnect?
        ensures k < j ==> t.effects[j].HandlerInvoked?
      {
        if k < j {
          assert t.effects[j] == invoked[j - k - 1];
        }
      }
    }
  }

  /**
   A connect that completes synchronously does exactly what a pending
   connect followed by the asynchronous completion does.
   */
  lemma SynchronousCompletionSamePath(client: Client, endpoint: Option<EndPoint>, messageTypes: MessageTypes,
                                      result: SocketError, receivePending: bool)
    ensures var pending := Connect(client, endpoint, messageTypes, SocketBehaviour(true, result, receivePending));
            var immediate := Connect(client, endpoint, messageTypes, SocketBehaviour(false, result, receivePending));
            match pending
            case Throw(e) => immediate == Throw(e)
            case Ok(t) =>
              var c := ConnectCompleted(t.client, result, receivePending);
              immediate == Ok(Transition(c.client, t.effects + c.effects))
  {
  }
}
