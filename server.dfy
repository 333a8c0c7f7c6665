/**
 * The server's message router (src/server.js:65-106): a client list that only
 * registration changes, and a fan-out of trades and orders to every client
 * other than the sender.
 */
module Router {

  import opened Wrappers
  import opened Protocol

  /**
   * The clients a message from `origin` is forwarded to: every entry of the
   * list that is not the origin, in list order.
   */
  function Recipients(clients: seq<string>, origin: Option<string>): (r: seq<string>)
    ensures |r| <= |clients|
    ensures forall c :: c in r <==> c in clients && Some(c) != origin
  {
    if clients == [] then []
    else if Some(clients[0]) != origin then [clients[0]] + Recipients(clients[1..], origin)
    else Recipients(clients[1..], origin)
  }

  /** Filtering preserves list order. */
  lemma {:induction false} RecipientsAppend(a: seq<string>, b: seq<string>, origin: Option<string>)
    ensures Recipients(a + b, origin) == Recipients(a, origin) + Recipients(b, origin)
  {
    if a == [] {
      assert a + b == b;
    } else {
      assert (a + b)[1..] == a[1..] + b;
      RecipientsAppend(a[1..], b, origin);
    }
  }

  /** One more list entry is a recipient exactly when it is not the origin. */
  lemma RecipientsStep(prefix: seq<string>, c: string, origin: Option<string>)
    ensures Recipients(prefix + [c], origin) == Recipients(prefix, origin) + (if Some(c) != origin then [c] else [])
  {
    RecipientsAppend(prefix, [c], origin);
    assert [c][1..] == [];
  }

  /** Each list entry other than the origin is forwarded to once per occurrence. */
  lemma {:induction false} RecipientsCount(clients: seq<string>, origin: Option<string>, c: string)
    ensures multiset(Recipients(clients, origin))[c] == if Some(c) == origin then 0 else multiset(clients)[c]
  {
    if clients != [] {
      assert clients == [clients[0]] + clients[1..];
      RecipientsCount(clients[1..], origin, c);
    }
  }

  /** A message from a sender that is not registered goes to the whole list. */
  lemma {:induction false} RecipientsWithoutOrigin(clients: seq<string>, origin: Option<string>)
    requires forall k :: 0 <= k < |clients| ==> Some(clients[k]) != origin
    ensures Recipients(clients, origin) == clients
  {
    if clients != [] {
      RecipientsWithoutOrigin(clients[1..], origin);
    }
  }

  /** Registering a name twice makes every later fan-out reach it twice. */
  lemma DuplicateRegistration(clients: seq<string>, name: string, origin: Option<string>)
    requires Some(name) != origin
    ensures multiset(Recipients(clients + [name] + [name], origin))[name]
            == multiset(Recipients(clients, origin))[name] + 2
  {
    RecipientsCount(clients + [name] + [name], origin, name);
    RecipientsCount(clients, origin, name);
  }

  /** The requests of a fan-out: one per recipient, in recipient order, each carrying the payload. */
  predicate IsFanout(sends: seq<Request>, recipients: seq<string>, payload: Message) {
    |sends| == |recipients| && forall k :: 0 <= k < |sends| ==> sends[k] == Request(recipients[k], payload)
  }

  /** A fan-out extended by one recipient. */
  lemma FanoutExtend(sends: seq<Request>, recipients: seq<string>, c: string, payload: Message)
    requires IsFanout(sends, recipients, payload)
    ensures IsFanout(sends + [Request(c, payload)], recipients + [c], payload)
  {
  }

  /** Sends the payload to each recipient in turn (the `forEach` over the filtered list). */
  method SendToEach(recipients: seq<string>, payload: Message) returns (sends: seq<Request>)
    ensures IsFanout(sends, recipients, payload)
  {
    sends := [];
    for i := 0 to |recipients|
      invariant |sends| == i
      invariant forall k :: 0 <= k < i ==> sends[k] == Request(recipients[k], payload)
    {
      sends := sends + [Request(recipients[i], payload)];
    }
  }

  class Server {
    /** The registered client names, in registration order, duplicates included. */
    var clients: seq<string>

    constructor ()
      ensures clients == []
    {
      clients := [];
    }

    /**
     * Dispatches one inbound message and returns the one reply and the
     * requests sent on. Only registration changes the client list.
     */
    method HandleRequest(payload: Message) returns (reply: string, sends: seq<Request>)
      modifies this
      ensures payload.Register? ==> clients == old(clients) + [payload.serviceName]
      ensures !payload.Register? ==> clients == old(clients)
      ensures payload.Register? ==> reply == "Client registered" && sends == []
      ensures payload.Ping? ==> reply == "pong" && sends == []
      ensures payload.TradeExecuted? ==>
                reply == "Trade notification forwarded to clients"
                && IsFanout(sends, Recipients(clients, payload.Origin()), payload)
      ensures (payload.PlaceOrder? || payload.Unknown?) ==>
                reply == "Order forwarded to clients"
                && IsFanout(sends, Recipients(clients, payload.Origin()), payload)
    {
      match payload
      case Register(serviceName, _) =>
        clients := clients + [serviceName];
        reply, sends := "Client registered", [];
      case Ping(_) =>
        reply, sends := "pong", [];
      case TradeExecuted(_, clientId) =>
        sends := SendToEach(Recipients(clients, Some(clientId)), payload);
        reply := "Trade notification forwarded to clients";
      case _ =>
        reply, sends := ForwardOrderToClients(payload);
    }

    /** Walks the client list and sends the payload to every entry that is not its sender. */
    method ForwardOrderToClients(payload: Message) returns (reply: string, sends: seq<Request>)
      ensures reply == "Order forwarded to clients"
      ensures IsFanout(sends, Recipients(clients, payload.Origin()), payload)
    {
      var list, origin := clients, payload.Origin();
      sends := [];
      for i := 0 to |list|
        invariant IsFanout(sends, Recipients(list[..i], origin), payload)
      {
        var prefix := list[..i];
        assert list[..i + 1] == prefix + [list[i]];
        RecipientsStep(prefix, list[i], origin);
        if origin != Some(list[i]) {
          FanoutExtend(sends, Recipients(prefix, origin), list[i], payload);
          sends := sends + [Request(list[i], payload)];
        }
      }
      assert list[..|list|] == list;
      reply := "Order forwarded to clients";
    }
  }
}
