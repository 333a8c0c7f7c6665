/**
 * How a trade executed on one node reaches another: the matching node sends
 * the trade it got from `matchOrder` (src/client.js:59-82), and a peer applies
 * it with `updateWithTrade` (src/client.js:46-50).
 */
module Convergence {

  import opened Orders
  import opened Matching
  import opened Reconciliation

  /**
   * The trade's snapshots carry pre-trade amounts, so a peer that holds both
   * orders as they were before the match is left unchanged by the
   * notification while the matching node's book has moved on: the two books
   * disagree once the protocol has run.
   */
  lemma PreTradeSnapshotsDoNotConverge()
    ensures var resident := Order(Sell, 100, 3, "alice");
            var incoming := Order(Buy, 100, 5, "bob");
            var matcher := Book([], [resident]);
            var peer := Book([incoming], [resident]);
            var r := Match(matcher, incoming);
            && r.trade.Some?
            && r.book == Book([], [])
            && ApplyTrade(peer, r.trade.value) == peer
  {
    var resident := Order(Sell, 100, 3, "alice");
    var incoming := Order(Buy, 100, 5, "bob");
    var r := Match(Book([], [resident]), incoming);
    assert r.trade.value.buyOrder == incoming && r.trade.value.sellOrder == resident;
    ApplyTradeToAgreeingBook(Book([incoming], [resident]), r.trade.value);
  }
}
