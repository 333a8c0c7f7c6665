/**
 * How `OrderBook.updateWithTrade` (src/orderBook.js:56-76) reconciles a book with
 * a trade executed on another node: on each side, every order with the
 * snapshot's (clientId, price) takes the snapshot's amount (the `map`), then
 * every order whose amount is not positive is dropped (the `filter`).
 */
module Reconciliation {

  import opened Orders

  /** Reconciliation identifies an order by owner and price, not by identity. */
  predicate SameKey(o: Order, snapshot: Order) {
    o.clientId == snapshot.clientId && o.price == snapshot.price
  }

  /** The `map` step: matching orders take the snapshot's amount, all else stays. */
  function Refresh(orders: seq<Order>, snapshot: Order): (r: seq<Order>)
    ensures |r| == |orders|
    ensures forall k :: 0 <= k < |r| ==>
              && r[k].side == orders[k].side
              && r[k].price == orders[k].price
              && r[k].clientId == orders[k].clientId
              && r[k].amount == (if SameKey(orders[k], snapshot) then snapshot.amount else orders[k].amount)
  {
    if orders == [] then []
    else
      var o := orders[0];
      [if SameKey(o, snapshot) then o.WithAmount(snapshot.amount) else o] + Refresh(orders[1..], snapshot)
  }

  /** The `filter` step: keep the orders with a positive amount. */
  function KeepPositive(orders: seq<Order>): (r: seq<Order>)
    ensures |r| <= |orders|
    ensures Positive(r)
    ensures forall o :: o in r <==> o in orders && o.amount > 0
  {
    if orders == [] then []
    else if orders[0].amount > 0 then [orders[0]] + KeepPositive(orders[1..])
    else KeepPositive(orders[1..])
  }

  function Reconcile(orders: seq<Order>, snapshot: Order): seq<Order> {
    KeepPositive(Refresh(orders, snapshot))
  }

  /** `updateWithTrade`: the buy side against the buy snapshot, the sell side against the sell snapshot. */
  function ApplyTrade(b: Book, t: Trade): Book {
    Book(Reconcile(b.buyOrders, t.buyOrder), Reconcile(b.sellOrders, t.sellOrder))
  }

  /** The filter keeps the survivors in their original relative order. */
  lemma {:induction false} KeepPositiveAppend(a: seq<Order>, b: seq<Order>)
    ensures KeepPositive(a + b) == KeepPositive(a) + KeepPositive(b)
  {
    if a == [] {
      assert a + b == b;
    } else {
      assert (a + b)[1..] == a[1..] + b;
      KeepPositiveAppend(a[1..], b);
    }
  }

  /** The filter changes a sequence exactly when some amount in it is not positive. */
  lemma {:induction false} KeepPositiveUnchanged(s: seq<Order>)
    ensures KeepPositive(s) == s <==> Positive(s)
  {
    if s != [] && Positive(s) {
      assert Positive(s[1..]);
      KeepPositiveUnchanged(s[1..]);
    }
  }

  /** The map step preserves concatenation, hence relative order. */
  lemma RefreshAppend(a: seq<Order>, b: seq<Order>, snapshot: Order)
    ensures Refresh(a + b, snapshot) == Refresh(a, snapshot) + Refresh(b, snapshot)
  {
    var l, r := Refresh(a + b, snapshot), Refresh(a, snapshot) + Refresh(b, snapshot);
    forall k | 0 <= k < |l| ensures l[k] == r[k] {
      if k >= |a| { assert (a + b)[k] == b[k - |a|]; }
    }
  }

  /** Orders that already carry the snapshot's amount are left alone by the map step. */
  lemma RefreshAgreeing(s: seq<Order>, snapshot: Order)
    requires forall k :: 0 <= k < |s| && SameKey(s[k], snapshot) ==> s[k].amount == snapshot.amount
    ensures Refresh(s, snapshot) == s
  {
    var r := Refresh(s, snapshot);
    forall k | 0 <= k < |s| ensures r[k] == s[k] {
    }
  }

  /**
   * What survives reconciliation: exactly the refreshed orders with a
   * positive amount, so matching orders carry the snapshot's amount, a
   * non-matching order with a positive amount is kept as it was, and a
   * non-positive snapshot amount deletes every matching order.
   */
  lemma ReconcileContents(s: seq<Order>, snapshot: Order)
    ensures var r := Reconcile(s, snapshot);
            && Positive(r)
            && (forall o :: o in r ==> SameKey(o, snapshot) ==> o.amount == snapshot.amount)
            && (forall k :: 0 <= k < |s| && !SameKey(s[k], snapshot) ==> (s[k] in r <==> s[k].amount > 0))
            && (forall k :: 0 <= k < |s| && SameKey(s[k], snapshot) ==>
                  (s[k].WithAmount(snapshot.amount) in r <==> snapshot.amount > 0))
  {
    var m := Refresh(s, snapshot);
    forall o | o in KeepPositive(m) && SameKey(o, snapshot) ensures o.amount == snapshot.amount {
      var k :| 0 <= k < |m| && m[k] == o;
    }
    forall k | 0 <= k < |s| && !SameKey(s[k], snapshot) ensures s[k] in KeepPositive(m) <==> s[k].amount > 0 {
      assert m[k] == s[k];
    }
    forall k | 0 <= k < |s| && SameKey(s[k], snapshot)
      ensures s[k].WithAmount(snapshot.amount) in KeepPositive(m) <==> snapshot.amount > 0
    {
      assert m[k] == s[k].WithAmount(snapshot.amount);
    }
  }

  /** Reconciliation works piecewise, so survivors keep their relative order. */
  lemma ReconcileAppend(a: seq<Order>, b: seq<Order>, snapshot: Order)
    ensures Reconcile(a + b, snapshot) == Reconcile(a, snapshot) + Reconcile(b, snapshot)
  {
    RefreshAppend(a, b, snapshot);
    KeepPositiveAppend(Refresh(a, snapshot), Refresh(b, snapshot));
  }

  /** A trade whose snapshots match no resident order leaves a positive book as it was. */
  lemma ReconcileMiss(s: seq<Order>, snapshot: Order)
    requires Positive(s)
    requires forall k :: 0 <= k < |s| ==> !SameKey(s[k], snapshot)
    ensures Reconcile(s, snapshot) == s
  {
    RefreshAgreeing(s, snapshot);
    KeepPositiveUnchanged(s);
  }

  /** The amount is set, not decremented: reconciling twice is reconciling once. */
  lemma ReconcileIdempotent(s: seq<Order>, snapshot: Order)
    ensures Reconcile(Reconcile(s, snapshot), snapshot) == Reconcile(s, snapshot)
  {
    var once := Reconcile(s, snapshot);
    ReconcileContents(s, snapshot);
    forall k | 0 <= k < |once| && SameKey(once[k], snapshot) ensures once[k].amount == snapshot.amount {
      assert once[k] in once;
    }
    RefreshAgreeing(once, snapshot);
    KeepPositiveUnchanged(once);
  }

  /** Applying the same trade twice leaves the book as applying it once. */
  lemma ApplyTradeIdempotent(b: Book, t: Trade)
    ensures ApplyTrade(ApplyTrade(b, t), t) == ApplyTrade(b, t)
  {
    ReconcileIdempotent(b.buyOrders, t.buyOrder);
    ReconcileIdempotent(b.sellOrders, t.sellOrder);
  }

  /** Whatever the book held before, every order left after a trade is applied is positive. */
  lemma ApplyTradeMakesPositive(b: Book, t: Trade)
    ensures AllPositive(ApplyTrade(b, t))
  {
  }

  /**
   * A book whose orders under each snapshot's key already carry that
   * snapshot's amount, and whose amounts are all positive, is a fixed point of
   * applying the trade.
   */
  lemma ApplyTradeToAgreeingBook(b: Book, t: Trade)
    requires AllPositive(b)
    requires forall k :: 0 <= k < |b.buyOrders| && SameKey(b.buyOrders[k], t.buyOrder) ==>
               b.buyOrders[k].amount == t.buyOrder.amount
    requires forall k :: 0 <= k < |b.sellOrders| && SameKey(b.sellOrders[k], t.sellOrder) ==>
               b.sellOrders[k].amount == t.sellOrder.amount
    ensures ApplyTrade(b, t) == b
  {
    RefreshAgreeing(b.buyOrders, t.buyOrder);
    KeepPositiveUnchanged(b.buyOrders);
    RefreshAgreeing(b.sellOrders, t.sellOrder);
    KeepPositiveUnchanged(b.sellOrders);
  }
}
