/**
 * The values the order book works on: orders, trades and the two arrival-ordered
 * sides of a book (src/orderBook.js). Prices and amounts are exact integers.
 */
module Orders {

  import opened Wrappers

  /** The `type` field of an order: 'buy' or 'sell'. */
  datatype Side = Buy | Sell

  function Opposite(s: Side): (r: Side)
    ensures r != s
  {
    if s == Buy then Sell else Buy
  }

  datatype Order = Order(side: Side, price: int, amount: int, clientId: string)
  {
    /** The same order with its amount changed, as an in-place `amount` assignment leaves it. */
    function WithAmount(a: int): (r: Order)
      ensures r.amount == a
      ensures r.side == side && r.price == price && r.clientId == clientId
    {
      Order(side, price, a, clientId)
    }
  }

  /**
   * The record `matchOrder` returns and the client stores and broadcasts:
   * snapshots of both orders taken before the trade, the traded amount and
   * the incoming order when it is not completely filled.
   */
  datatype Trade = Trade(buyOrder: Order, sellOrder: Order, tradedAmount: int, remainingOrder: Option<Order>)

  /** The state of one node's order book, both sides in arrival order. */
  datatype Book = Book(buyOrders: seq<Order>, sellOrders: seq<Order>)
  {
    function OrdersOn(s: Side): seq<Order> {
      if s == Buy then buyOrders else sellOrders
    }

    function WithOrdersOn(s: Side, orders: seq<Order>): (r: Book)
      ensures r.OrdersOn(s) == orders
      ensures r.OrdersOn(Opposite(s)) == OrdersOn(Opposite(s))
    {
      if s == Buy then Book(orders, sellOrders) else Book(buyOrders, orders)
    }

    /** `addOrder`: the order goes to the end of its own side; nothing else changes. */
    function Add(o: Order): (r: Book)
      ensures r.OrdersOn(o.side) == OrdersOn(o.side) + [o]
      ensures r.OrdersOn(Opposite(o.side)) == OrdersOn(Opposite(o.side))
    {
      if o.side == Buy then Book(buyOrders + [o], sellOrders)
      else Book(buyOrders, sellOrders + [o])
    }
  }

  function Min(a: int, b: int): (m: int)
    ensures m <= a && m <= b
    ensures m == a || m == b
  {
    if a <= b then a else b
  }

  /**
   * The crossing test of `matchOrder`: a buy crosses a resident order priced at
   * or below it, a sell one priced at or above it.
   */
  predicate Crosses(incoming: Order, resident: Order) {
    || (incoming.side == Buy && incoming.price >= resident.price)
    || (incoming.side == Sell && incoming.price <= resident.price)
  }

  /** Total amount of a sequence of orders. */
  function Sum(orders: seq<Order>): int {
    if orders == [] then 0 else orders[0].amount + Sum(orders[1..])
  }

  function Total(b: Book): int {
    Sum(b.buyOrders) + Sum(b.sellOrders)
  }

  predicate Positive(orders: seq<Order>) {
    forall k :: 0 <= k < |orders| ==> orders[k].amount > 0
  }

  /** Every resident order has a strictly positive amount. */
  predicate AllPositive(b: Book) {
    Positive(b.buyOrders) && Positive(b.sellOrders)
  }

  lemma {:induction false} SumAppend(a: seq<Order>, b: seq<Order>)
    ensures Sum(a + b) == Sum(a) + Sum(b)
  {
    if a != [] {
      assert (a + b)[1..] == a[1..] + b;
      SumAppend(a[1..], b);
    } else {
      assert a + b == b;
    }
  }

  lemma SumSingle(o: Order)
    ensures Sum([o]) == o.amount
  {
    assert [o][1..] == [];
  }

  /** The total of a sequence split around index i. */
  lemma SumAround(s: seq<Order>, i: nat)
    requires i < |s|
    ensures Sum(s) == Sum(s[..i]) + s[i].amount + Sum(s[i+1..])
  {
    var front, back := s[..i], s[i+1..];
    assert s == front + [s[i]] + back;
    SumAppend(front + [s[i]], back);
    SumAppend(front, [s[i]]);
    SumSingle(s[i]);
  }

  /** Removing the order at index i lowers the total by exactly its amount. */
  lemma SumRemove(s: seq<Order>, i: nat)
    requires i < |s|
    ensures Sum(s[..i] + s[i+1..]) == Sum(s) - s[i].amount
  {
    SumAround(s, i);
    SumAppend(s[..i], s[i+1..]);
  }

  /** Replacing the order at index i changes the total by the change in its amount. */
  lemma SumReplace(s: seq<Order>, i: nat, o: Order)
    requires i < |s|
    ensures Sum(s[i := o]) == Sum(s) - s[i].amount + o.amount
  {
    var t := s[i := o];
    SumAround(s, i);
    SumAround(t, i);
    assert t[..i] == s[..i] && t[i+1..] == s[i+1..];
  }
}
