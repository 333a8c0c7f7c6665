/**
 * The first-fit matching rule of `OrderBook.matchOrder` (src/orderBook.js:15-54)
 * as a function on book values, and what it guarantees.
 */
module Matching {

  import opened Wrappers
  import opened Orders

  datatype MatchResult = MatchResult(book: Book, trade: Option<Trade>)

  /**
   * Index of the earliest resident order that the incoming order crosses, or
   * |resident| when none does.
   */
  function FirstCross(incoming: Order, resident: seq<Order>): (i: nat)
    ensures i <= |resident|
    ensures i < |resident| ==> Crosses(incoming, resident[i])
    ensures forall j :: 0 <= j < i ==> !Crosses(incoming, resident[j])
  {
    if resident == [] then 0
    else if Crosses(incoming, resident[0]) then 0
    else 1 + FirstCross(incoming, resident[1..])
  }

  /**
   * One call of `matchOrder` on book `b`: trade against the first crossing
   * resident order of the opposite side, or file the incoming order on its own
   * side when nothing crosses.
   */
  function Match(b: Book, incoming: Order): MatchResult {
    var opposite := b.OrdersOn(Opposite(incoming.side));
    var i := FirstCross(incoming, opposite);
    if i == |opposite| then
      MatchResult(b.Add(incoming), None)
    else
      var t := Execute(incoming, opposite[i]);
      MatchResult(b.WithOrdersOn(Opposite(incoming.side), Fill(opposite, i, t.tradedAmount)), Some(t))
  }

  /** The trade record of a match: pre-trade snapshots by side, the traded amount, the remainder. */
  function Execute(incoming: Order, resident: Order): Trade {
    var traded := Min(incoming.amount, resident.amount);
    var rest := incoming.WithAmount(incoming.amount - traded);
    Trade(
      if incoming.side == Buy then incoming else resident,
      if incoming.side == Sell then incoming else resident,
      traded,
      if rest.amount > 0 then Some(rest) else None)
  }

  /** The opposite side after the order at index i lost `traded`: removed if depleted, else updated in place. */
  function Fill(opposite: seq<Order>, i: nat, traded: int): seq<Order>
    requires i < |opposite|
  {
    var filled := opposite[i].WithAmount(opposite[i].amount - traded);
    if filled.amount == 0 then opposite[..i] + opposite[i+1..] else opposite[i := filled]
  }

  /** In the crossing case, the new book and the trade in terms of `Execute` and `Fill`. */
  lemma MatchCrossing(b: Book, incoming: Order)
    requires Match(b, incoming).trade.Some?
    ensures var opposite := b.OrdersOn(Opposite(incoming.side));
            var i := FirstCross(incoming, opposite);
            && i < |opposite|
            && Match(b, incoming).trade == Some(Execute(incoming, opposite[i]))
            && Match(b, incoming).book
               == b.WithOrdersOn(Opposite(incoming.side), Fill(opposite, i, Execute(incoming, opposite[i]).tradedAmount))
  {
  }

  /** The snapshot in a trade of the resident order the incoming order met. */
  function Resident(incoming: Order, t: Trade): Order {
    if incoming.side == Buy then t.sellOrder else t.buyOrder
  }

  function RemainingAmount(t: Trade): int {
    if t.remainingOrder.Some? then t.remainingOrder.value.amount else 0
  }

  /**
   * First fit: a trade happens exactly when some opposite order crosses, and it
   * is made against the earliest crossing one.
   */
  lemma MatchFirstFit(b: Book, incoming: Order)
    ensures var opposite := b.OrdersOn(Opposite(incoming.side));
            Match(b, incoming).trade.Some? <==> exists j :: 0 <= j < |opposite| && Crosses(incoming, opposite[j])
    ensures var opposite := b.OrdersOn(Opposite(incoming.side));
            var r := Match(b, incoming);
            r.trade.Some? ==>
              exists i :: 0 <= i < |opposite| && Resident(incoming, r.trade.value) == opposite[i]
                && Crosses(incoming, opposite[i])
                && forall j :: 0 <= j < i ==> !Crosses(incoming, opposite[j])
  {
    var opposite := b.OrdersOn(Opposite(incoming.side));
    var i := FirstCross(incoming, opposite);
    if i < |opposite| {
      assert Resident(incoming, Match(b, incoming).trade.value) == opposite[i];
    }
  }

  /**
   * Conservation: the traded amount is the smaller of the two amounts, both
   * orders lose exactly that much and neither goes negative; the book's total
   * falls by the traded amount and, counting the incoming order, by twice it.
   */
  lemma MatchConservesAmounts(b: Book, incoming: Order)
    requires Match(b, incoming).trade.Some?
    ensures var r := Match(b, incoming);
            var t := r.trade.value;
            var resident := Resident(incoming, t);
            && t.tradedAmount == Min(incoming.amount, resident.amount)
            && resident.amount - t.tradedAmount >= 0
            && RemainingAmount(t) == incoming.amount - t.tradedAmount >= 0
            && Total(r.book) == Total(b) - t.tradedAmount
            && Total(r.book) + RemainingAmount(t) == Total(b) + incoming.amount - 2 * t.tradedAmount
  {
    var opposite := b.OrdersOn(Opposite(incoming.side));
    var i := FirstCross(incoming, opposite);
    var resident := opposite[i];
    var traded := Min(incoming.amount, resident.amount);
    var filled := resident.WithAmount(resident.amount - traded);
    if filled.amount == 0 {
      SumRemove(opposite, i);
    } else {
      SumReplace(opposite, i, filled);
    }
  }

  /**
   * What happens to the resident order that was met: it leaves the book exactly
   * when the incoming order covers its amount, otherwise it keeps its index
   * with a reduced amount; every other resident order and the incoming order's
   * own side are untouched, so the remainder is not queued.
   */
  lemma MatchResidentFate(b: Book, incoming: Order)
    requires Match(b, incoming).trade.Some?
    ensures Match(b, incoming).book.OrdersOn(incoming.side) == b.OrdersOn(incoming.side)
    ensures var opposite := b.OrdersOn(Opposite(incoming.side));
            var after := Match(b, incoming).book.OrdersOn(Opposite(incoming.side));
            var i := FirstCross(incoming, opposite);
            var resident := opposite[i];
            && (resident.amount <= incoming.amount ==> after == opposite[..i] + opposite[i+1..])
            && (resident.amount > incoming.amount ==>
                  && |after| == |opposite|
                  && after[i] == resident.WithAmount(resident.amount - incoming.amount)
                  && forall j :: 0 <= j < |opposite| && j != i ==> after[j] == opposite[j])
  {
    MatchCrossing(b, incoming);
    var opposite := b.OrdersOn(Opposite(incoming.side));
    var i := FirstCross(incoming, opposite);
    var traded := Execute(incoming, opposite[i]).tradedAmount;
    var after := Fill(opposite, i, traded);
    assert Opposite(Opposite(incoming.side)) == incoming.side;
    assert Match(b, incoming).book.OrdersOn(Opposite(incoming.side)) == after;
    FillAgainst(opposite, i, incoming);
  }

  /** The resident side after the order at index i met `incoming`. */
  lemma FillAgainst(opposite: seq<Order>, i: nat, incoming: Order)
    requires i < |opposite|
    ensures var after := Fill(opposite, i, Execute(incoming, opposite[i]).tradedAmount);
            var resident := opposite[i];
            && (resident.amount <= incoming.amount ==> after == opposite[..i] + opposite[i+1..])
            && (resident.amount > incoming.amount ==>
                  && |after| == |opposite|
                  && after[i] == resident.WithAmount(resident.amount - incoming.amount)
                  && forall j :: 0 <= j < |opposite| && j != i ==> after[j] == opposite[j])
  {
  }

  /** The trade's snapshots are the pre-trade incoming and resident orders, placed by side. */
  lemma MatchSnapshots(b: Book, incoming: Order)
    requires Match(b, incoming).trade.Some?
    ensures var opposite := b.OrdersOn(Opposite(incoming.side));
            var t := Match(b, incoming).trade.value;
            var resident := opposite[FirstCross(incoming, opposite)];
            && (incoming.side == Buy ==> t.buyOrder == incoming && t.sellOrder == resident)
            && (incoming.side == Sell ==> t.sellOrder == incoming && t.buyOrder == resident)
  {
    var opposite := b.OrdersOn(Opposite(incoming.side));
    MatchCrossing(b, incoming);
    ExecuteSnapshots(incoming, opposite[FirstCross(incoming, opposite)]);
  }

  /**
   * The remainder is the incoming order with its reduced amount exactly when
   * it was larger than the resident order, and absent otherwise.
   */
  lemma MatchRemainder(b: Book, incoming: Order)
    requires Match(b, incoming).trade.Some?
    ensures var opposite := b.OrdersOn(Opposite(incoming.side));
            var t := Match(b, incoming).trade.value;
            var resident := opposite[FirstCross(incoming, opposite)];
            t.remainingOrder == if incoming.amount > resident.amount
                                then Some(incoming.WithAmount(incoming.amount - resident.amount))
                                else None
  {
    var opposite := b.OrdersOn(Opposite(incoming.side));
    MatchCrossing(b, incoming);
    ExecuteSnapshots(incoming, opposite[FirstCross(incoming, opposite)]);
  }

  /** The trade record `Execute` builds: snapshots by side and the remainder. */
  lemma ExecuteSnapshots(incoming: Order, resident: Order)
    ensures var t := Execute(incoming, resident);
            && (incoming.side == Buy ==> t.buyOrder == incoming && t.sellOrder == resident)
            && (incoming.side == Sell ==> t.sellOrder == incoming && t.buyOrder == resident)
            && t.remainingOrder == if incoming.amount > resident.amount
                                   then Some(incoming.WithAmount(incoming.amount - resident.amount))
                                   else None
  {
  }

  /**
   * When nothing crosses, no trade is made, the incoming order is appended to
   * its own side and the opposite side is left as it was.
   */
  lemma MatchNoCross(b: Book, incoming: Order)
    requires forall j :: 0 <= j < |b.OrdersOn(Opposite(incoming.side))| ==>
               !Crosses(incoming, b.OrdersOn(Opposite(incoming.side))[j])
    ensures var r := Match(b, incoming);
            && r.trade == None
            && r.book.OrdersOn(incoming.side) == b.OrdersOn(incoming.side) + [incoming]
            && r.book.OrdersOn(Opposite(incoming.side)) == b.OrdersOn(Opposite(incoming.side))
  {
  }

  /**
   * The book invariant that resident amounts are strictly positive survives a
   * match of a positive incoming order, and a remainder is positive too.
   */
  lemma MatchKeepsPositive(b: Book, incoming: Order)
    requires AllPositive(b) && incoming.amount > 0
    ensures AllPositive(Match(b, incoming).book)
    ensures var t := Match(b, incoming).trade;
            t.Some? && t.value.remainingOrder.Some? ==> t.value.remainingOrder.value.amount > 0
  {
    var opposite := b.OrdersOn(Opposite(incoming.side));
    var i := FirstCross(incoming, opposite);
    if i < |opposite| {
      var resident := opposite[i];
      var traded := Min(incoming.amount, resident.amount);
      var filled := resident.WithAmount(resident.amount - traded);
      var remaining := if filled.amount == 0 then opposite[..i] + opposite[i+1..] else opposite[i := filled];
      assert Positive(remaining) by {
        forall k | 0 <= k < |remaining| ensures remaining[k].amount > 0 {
          if filled.amount == 0 {
            if k < i { assert remaining[k] == opposite[k]; } else { assert remaining[k] == opposite[k + 1]; }
          }
        }
      }
    }
  }

  /** The scenario of the unit test: a resident buy of 5 at 100 meets a sell of 3 at 100. */
  lemma MatchScenarioPartialFill()
    ensures var buy := Order(Buy, 100, 5, "alice");
            var sell := Order(Sell, 100, 3, "bob");
            var r := Match(Book([], []).Add(buy), sell);
            && r.trade == Some(Trade(buy, sell, 3, None))
            && r.book == Book([buy.WithAmount(2)], [])
  {
  }

  /** A sell of 8 at 100 fills a resident buy of 5 at 100 and leaves a remainder of 3. */
  lemma MatchScenarioOverfill()
    ensures var buy := Order(Buy, 100, 5, "alice");
            var sell := Order(Sell, 100, 8, "bob");
            var r := Match(Book([buy], []), sell);
            && r.trade == Some(Trade(buy, sell, 5, Some(sell.WithAmount(3))))
            && r.book == Book([], [])
  {
  }
}
