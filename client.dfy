/**
 * A trading node (src/client.js): its order book, the trades it has executed
 * itself, and what it does with each inbound message and each order it submits.
 */
module Node {

  import opened Wrappers
  import opened Orders
  import opened Matching
  import opened Reconciliation
  import opened Protocol
  import opened Engine

  class Client {
    const clientId: string
    const orderBook: OrderBook
    /** The trades this node executed, in execution order. */
    var clientExecutedTrades: seq<Trade>

    constructor (clientId: string)
      ensures this.clientId == clientId && clientExecutedTrades == []
      ensures fresh(orderBook) && orderBook.Model() == Book([], [])
    {
      this.clientId := clientId;
      orderBook := new OrderBook();
      clientExecutedTrades := [];
    }

    /** Whether a message was sent by this node itself. */
    predicate FromSelf(payload: Message) {
      payload.Origin() == Some(clientId)
    }

    /**
     * Handles one inbound message: answers pings, applies remote trades,
     * skips its own orders and matches every other order, recording and
     * announcing the trade when there is one.
     */
    method HandleIncomingOrders(payload: Message) returns (reply: string, outbox: seq<Request>)
      modifies this, orderBook
      ensures payload.Ping? ==>
                && reply == "pong" && outbox == []
                && orderBook.Model() == old(orderBook.Model())
                && clientExecutedTrades == old(clientExecutedTrades)
      ensures payload.TradeExecuted? ==>
                && reply == "Trade applied to order book" && outbox == []
                && orderBook.Model() == ApplyTrade(old(orderBook.Model()), payload.trade)
                && clientExecutedTrades == old(clientExecutedTrades)
      ensures !payload.Ping? && !payload.TradeExecuted? && FromSelf(payload) ==>
                && reply == "Order added to my order book" && outbox == []
                && orderBook.Model() == old(orderBook.Model())
                && clientExecutedTrades == old(clientExecutedTrades)
      ensures payload.PlaceOrder? && !FromSelf(payload) ==>
                var r := Match(old(orderBook.Model()), payload.order);
                && reply == "Order processing completed"
                && orderBook.Model() == r.book
                && (r.trade.Some? ==>
                      && clientExecutedTrades == old(clientExecutedTrades) + [r.trade.value]
                      && outbox == [Request(ServerService, TradeExecuted(r.trade.value, clientId))])
                && (r.trade.None? ==>
                      clientExecutedTrades == old(clientExecutedTrades) && outbox == [])
      ensures (payload.Register? || payload.Unknown?) && !FromSelf(payload) ==>
                && reply == "Order processing completed" && outbox == []
                && orderBook.Model() == old(orderBook.Model())
                && clientExecutedTrades == old(clientExecutedTrades)
    {
      match payload {
        case Ping(_) =>
          return "pong", [];
        case TradeExecuted(trade, _) =>
          orderBook.UpdateWithTrade(trade);
          return "Trade applied to order book", [];
        case _ =>
      }

      if FromSelf(payload) {
        return "Order added to my order book", [];
      }

      outbox := [];
      if payload.PlaceOrder? {
        var matched := orderBook.MatchOrder(payload.order);
        if matched.Some? {
          var trade := matched.value;
          clientExecutedTrades := clientExecutedTrades + [trade];
          outbox := [Request(ServerService, TradeExecuted(trade, clientId))];
        }
      }
      reply := "Order processing completed";
    }

    /**
     * Stamps the order with this node's id, files it in the node's own book
     * without matching it, and returns the request that sends it to the server.
     */
    method SendOrder(order: Order) returns (request: Request)
      modifies orderBook
      ensures orderBook.Model() == old(orderBook.Model()).Add(order.(clientId := clientId))
      ensures request == Request(ServerService, PlaceOrder(order.(clientId := clientId)))
    {
      var stamped := order.(clientId := clientId);
      orderBook.AddOrder(stamped);
      request := Request(ServerService, PlaceOrder(stamped));
    }
  }
}
