/**
 * The `OrderBook` class of src/orderBook.js: two arrival-ordered sides that its
 * methods update in place.
 */
module Engine {

  import opened Wrappers
  import opened Orders
  import opened Matching
  import opened Reconciliation

  class OrderBook {
    var buyOrders: seq<Order>
    var sellOrders: seq<Order>

    /** The book's current state as a value. */
    function Model(): Book
      reads this
    {
      Book(buyOrders, sellOrders)
    }

    constructor ()
      ensures buyOrders == [] && sellOrders == []
    {
      buyOrders := [];
      sellOrders := [];
    }

    /** Appends the order to the end of its own side; the other side is unchanged. */
    method AddOrder(order: Order)
      modifies this
      ensures order.side == Buy ==> buyOrders == old(buyOrders) + [order] && sellOrders == old(sellOrders)
      ensures order.side == Sell ==> sellOrders == old(sellOrders) + [order] && buyOrders == old(buyOrders)
    {
      if order.side == Buy {
        buyOrders := buyOrders + [order];
      } else {
        sellOrders := sellOrders + [order];
      }
    }

    /**
     * Scans the opposite side in arrival order and trades against the first
     * crossing order; files the order on its own side when none crosses. The
     * new book and the result are those of `Match`, whose properties are the
     * lemmas of module Matching.
     */
    method MatchOrder(order: Order) returns (trade: Option<Trade>)
      modifies this
      ensures Model() == Match(old(Model()), order).book
      ensures trade == Match(old(Model()), order).trade
    {
      var opposite := if order.side == Buy then sellOrders else buyOrders;
      var i := 0;
      while i < |opposite|
        invariant 0 <= i <= |opposite|
        invariant opposite == old(Model()).OrdersOn(Opposite(order.side))
        invariant forall j :: 0 <= j < i ==> !Crosses(order, opposite[j])
        invariant Model() == old(Model())
      {
        var existingOrder := opposite[i];
        if Crosses(order, existingOrder) {
          // the snapshots keep the pre-trade amounts
          var originalOrder, originalExistingOrder := order, existingOrder;
          var tradedAmount := Min(originalOrder.amount, originalExistingOrder.amount);
          var incoming := order.WithAmount(order.amount - tradedAmount);
          existingOrder := existingOrder.WithAmount(existingOrder.amount - tradedAmount);
          if existingOrder.amount == 0 {
            opposite := opposite[..i] + opposite[i+1..];
          } else {
            opposite := opposite[i := existingOrder];
          }
          if order.side == Buy {
            sellOrders := opposite;
          } else {
            buyOrders := opposite;
          }
          var remainingOrder := if incoming.amount > 0 then Some(incoming) else None;
          trade := Some(Trade(
            if originalOrder.side == Buy then originalOrder else originalExistingOrder,
            if originalOrder.side == Sell then originalOrder else originalExistingOrder,
            tradedAmount,
            remainingOrder));
          return;
        }
        i := i + 1;
      }
      if order.side == Buy {
        buyOrders := buyOrders + [order];
      } else {
        sellOrders := sellOrders + [order];
      }
      trade := None;
    }

    /**
     * Sets every resident order with the snapshot's (clientId, price) to the
     * snapshot's amount, then drops the orders whose amount is not positive,
     * on each side; properties are the lemmas of module Reconciliation.
     */
    method UpdateWithTrade(trade: Trade)
      modifies this
      ensures buyOrders == Reconcile(old(buyOrders), trade.buyOrder)
      ensures sellOrders == Reconcile(old(sellOrders), trade.sellOrder)
      ensures Model() == ApplyTrade(old(Model()), trade)
    {
      buyOrders := KeepPositive(Refresh(buyOrders, trade.buyOrder));
      sellOrders := KeepPositive(Refresh(sellOrders, trade.sellOrder));
    }
  }
}
