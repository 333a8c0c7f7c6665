/**
 * The messages nodes exchange through the transport, as a closed variant
 * instead of a switch on the `action` string, and the outgoing requests a
 * handler issues.
 */
module Protocol {

  import opened Wrappers
  import opened Orders

  /**
   * Each payload maps to exactly one constructor, chosen by its `action`
   * field. `Unknown` stands for an action other than 'register', 'ping' and
   * 'tradeExecuted'; an `Unknown` value carrying one of those three names is
   * the image of no payload.
   */
  datatype Message =
    | Register(serviceName: string, port: int)        // action 'register'
    | Ping(pinger: Option<string>)                     // action 'ping'; a client's heartbeat carries its id
    | TradeExecuted(trade: Trade, clientId: string)    // action 'tradeExecuted'
    | PlaceOrder(order: Order)                         // an order record, which carries no action
    | Unknown(action: string, sender: Option<string>)  // any other action: never 'register', 'ping' or 'tradeExecuted'
  {
    /** The payload's `clientId` field, absent (`undefined`) on a registration. */
    function Origin(): Option<string> {
      match this
      case Register(_, _) => None
      case Ping(pinger) => pinger
      case TradeExecuted(_, clientId) => Some(clientId)
      case PlaceOrder(order) => Some(order.clientId)
      case Unknown(_, sender) => sender
    }
  }

  /** One request handed to the transport: the payload and the service it goes to. */
  datatype Request = Request(to: string, payload: Message)

  /** The service name under which the server announces itself. */
  const ServerService: string := "rpc_test"
}
