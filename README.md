# Peer-to-peer order matching, modelled in Dafny

This project models the core of a peer-to-peer trading simulation. Every client node keeps its own order book. A node submits its orders through a rendezvous server. Each node matches incoming orders against its own book and broadcasts the trades it executes, so that other nodes can reconcile their books.

Three pieces are modelled:

- **The order book** (`src/orderBook.js`). Module `Engine` holds the class `OrderBook`: two arrival-ordered sides, `buyOrders` and `sellOrders`, which `AddOrder`, `MatchOrder` and `UpdateWithTrade` update in place. Each method's new state is tied to a function on book values:
  - `Orders.Book.Add` specifies `AddOrder`.
  - `Matching.Match` specifies first-fit matching.
  - `Reconciliation.ApplyTrade` specifies trade reconciliation: the `map` that sets amounts, then the `filter` that drops non-positive amounts.

  The properties of these functions are the lemmas of the modules `Matching`, `Reconciliation` and `Convergence`.
- **The server's router** (`src/server.js`). In module `Router`, the class `Server` holds the `clients` list:
  - `HandleRequest` dispatches on the message kind.
  - Registration appends the client's name.
  - Trades and orders fan out to `Recipients`: every list entry other than the sender, in list order.
- **The client node** (`src/client.js`). In module `Node`, the class `Client` holds:
  - an `OrderBook`;
  - the trades the node executed itself;
  - `HandleIncomingOrders`, which handles pings, remote trades, the node's own orders and other nodes' orders;
  - `SendOrder`, which stamps an order with the node's id and files it in the node's own book.

Messages form the closed variant `Protocol.Message`. The transport is not modelled. Instead, each handler returns its reply and the list of `Protocol.Request`s it would hand to the transport.

Orders are values (`Orders.Order`). Prices and amounts are exact integers. The source's `type` field is called `side` here, because `type` is a Dafny keyword.

In two places the code departs from the system's stated design, and the model follows the code:

- Registration is meant to be idempotent. The code appends the name even when it is already registered (src/server.js:68). `Router.DuplicateRegistration` shows that a name registered twice then receives every forwarded message twice.
- A trade notification is meant to carry the post-trade amounts, so that peers converge. The trade's `buyOrder`/`sellOrder` are snapshots taken before the trade (src/orderBook.js:25-26), and `updateWithTrade` writes those amounts back (src/orderBook.js:64, 72). `Convergence.PreTradeSnapshotsDoNotConverge` shows a peer whose book is left unchanged by a trade that emptied the matching node's book.

## Model

| member | source | states |
|---|---|---|
| `Orders.Book.Add` | src/orderBook.js:7-13 | the order goes to the end of its own side, and the other side is unchanged |
| `Orders.Crosses` | src/orderBook.js:21-22 | predicate, no contract of its own: a buy crosses a resident sell priced at or below it, a sell crosses a resident buy priced at or above it; used by `Matching.FirstCross` and `Matching.MatchFirstFit` |
| `Matching.Match` | src/orderBook.js:15-54 | no contract of its own: the value `Engine.OrderBook.MatchOrder` is proved to compute; its properties are `Matching.MatchFirstFit`, `Matching.MatchConservesAmounts`, `Matching.MatchResidentFate`, `Matching.MatchSnapshots`, `Matching.MatchRemainder`, `Matching.MatchNoCross` and `Matching.MatchKeepsPositive` |
| `Matching.Execute` | src/orderBook.js:24-41 | no contract of its own: the trade record; see `Matching.MatchSnapshots`, `Matching.MatchRemainder` and `Matching.MatchConservesAmounts` |
| `Matching.Fill` | src/orderBook.js:30-33 | no contract of its own: the resident side after the met order lost the traded amount; see `Matching.MatchResidentFate` and `Matching.MatchConservesAmounts` |
| `Reconciliation.Reconcile` | src/orderBook.js:62-67 | no contract of its own: the `map` (`Reconciliation.Refresh`) then the `filter` (`Reconciliation.KeepPositive`); see `Reconciliation.ReconcileContents`, `Reconciliation.ReconcileAppend`, `Reconciliation.ReconcileMiss` and `Reconciliation.ReconcileIdempotent` |
| `Reconciliation.ApplyTrade` | src/orderBook.js:56-76 | no contract of its own: the value `Engine.OrderBook.UpdateWithTrade` is proved to compute; see `Reconciliation.ApplyTradeIdempotent`, `Reconciliation.ApplyTradeMakesPositive` and `Reconciliation.ApplyTradeToAgreeingBook` |
| `Protocol.Message.Origin` | src/server.js:79 | no contract of its own: the payload's `clientId` (also src/server.js:97 and src/client.js:54), absent on a registration; used by `Router.Recipients` and `Node.Client.HandleIncomingOrders` |
| `Matching.FirstCross` | src/orderBook.js:16-22 | the index found is the earliest opposite order the incoming one crosses (buy: price ≥ resident's; sell: price ≤ resident's); no earlier index crosses; the index is the length when none crosses |
| `Matching.MatchFirstFit` | src/orderBook.js:15-22 | a trade happens if and only if some opposite order crosses, and the trade is made against the earliest crossing one |
| `Matching.MatchConservesAmounts` | src/orderBook.js:29-31 | traded amount = min of the two pre-trade amounts; both orders lose exactly that much and neither goes negative; the book total falls by the traded amount and, counting the incoming order, by twice it |
| `Matching.MatchResidentFate` | src/orderBook.js:33-42 | the resident leaves the book exactly when the incoming amount covers it, otherwise it stays at its index with the reduced amount; other resident orders and the incoming order's own side are unchanged, so the remainder is not queued |
| `Matching.MatchSnapshots` | src/orderBook.js:24-26 | the trade's buy/sell orders are the pre-trade incoming and resident orders, placed by side (src/orderBook.js:38-39) |
| `Matching.MatchRemainder` | src/orderBook.js:30-41 | the remainder is the incoming order with its amount reduced by the resident's exactly when it exceeded the resident's amount, and absent otherwise |
| `Matching.MatchNoCross` | src/orderBook.js:46-53 | when nothing crosses, no trade is made, the incoming order is appended to its own side, and the opposite side is unchanged |
| `Matching.MatchKeepsPositive` | src/orderBook.js:29-53 | if all resident amounts and the incoming amount are positive, all resident amounts stay positive after the match and any remainder is positive |
| `Matching.MatchScenarioPartialFill` | test/orderBook.test.js:22-32 | resident buy 5 at 100 against sell 3 at 100: traded amount 3, the buy keeps 2, no remainder |
| `Matching.MatchScenarioOverfill` | src/orderBook.js:29-41 | sell 8 at 100 against resident buy 5 at 100: traded amount 5, the buy is removed, the remainder is the sell with 3 |
| `Reconciliation.Refresh` | src/orderBook.js:62-66 | same length; each order with the snapshot's (clientId, price) takes the snapshot's amount; every other field, and every other order, is unchanged |
| `Reconciliation.KeepPositive` | src/orderBook.js:67 | keeps exactly the orders with a positive amount, none of any other |
| `Reconciliation.KeepPositiveAppend` | src/orderBook.js:67 | the filter works piecewise, so survivors keep their relative order |
| `Reconciliation.KeepPositiveUnchanged` | src/orderBook.js:67 | the filter leaves a sequence unchanged if and only if all its amounts are positive |
| `Reconciliation.RefreshAppend` | src/orderBook.js:62-66 | the amount update works piecewise and keeps the order of the list |
| `Reconciliation.RefreshAgreeing` | src/orderBook.js:62-66 | orders that already carry the snapshot's amount are left unchanged by the update |
| `Reconciliation.ReconcileContents` | src/orderBook.js:62-75 | after reconciliation all amounts are positive; matching orders carry the snapshot's amount; a non-matching order survives unchanged if and only if its amount is positive; a matching order survives if and only if the snapshot's amount is positive |
| `Reconciliation.ReconcileAppend` | src/orderBook.js:62-75 | reconciliation works piecewise, so survivors keep their relative order |
| `Reconciliation.ReconcileMiss` | src/orderBook.js:62-75 | a snapshot that matches no resident order leaves a book of positive orders unchanged |
| `Reconciliation.ReconcileIdempotent` | src/orderBook.js:62-67 | reconciling a side twice with the same snapshot gives the same result as doing it once |
| `Reconciliation.ApplyTradeIdempotent` | src/orderBook.js:56-76 | applying the same trade twice gives the same book as applying it once |
| `Reconciliation.ApplyTradeMakesPositive` | src/orderBook.js:56-76 | after a trade is applied, every resident amount is positive, whatever the book held before |
| `Reconciliation.ApplyTradeToAgreeingBook` | src/orderBook.js:56-76 | a positive book whose orders under each snapshot's key already carry that snapshot's amount is unchanged by the trade |
| `Convergence.PreTradeSnapshotsDoNotConverge` | src/orderBook.js:24-76 | the trade from matching buy 5 against resident sell 3 leaves a peer holding both pre-trade orders unchanged, while the matching node's book becomes empty |
| `Engine.OrderBook.constructor` | src/orderBook.js:2-5 | a new book has two empty sides |
| `Engine.OrderBook.AddOrder` | src/orderBook.js:7-13 | appends to `buyOrders` for a buy and to `sellOrders` for a sell; the other side is unchanged |
| `Engine.OrderBook.MatchOrder` | src/orderBook.js:15-54 | the loop scans the opposite side in arrival order; the new sides and the returned trade (or none) are those of `Matching.Match` |
| `Engine.OrderBook.UpdateWithTrade` | src/orderBook.js:56-76 | each side becomes its reconciliation with the trade's snapshot for that side: `Reconciliation.ApplyTrade` of the old book |
| `Router.Recipients` | src/server.js:77-79 | a name is a recipient if and only if it is in the client list and is not the message's `clientId` (an absent `clientId` excludes no one) |
| `Router.RecipientsAppend` | src/server.js:78-80 | recipients keep the list's order |
| `Router.RecipientsCount` | src/server.js:95-104 | each name other than the sender receives the message once per occurrence in the list; the sender never receives it |
| `Router.RecipientsWithoutOrigin` | src/server.js:95-104 | when the sender is not in the list, the message goes to the whole list |
| `Router.DuplicateRegistration` | src/server.js:67-68 | a name registered twice more receives two more copies of every forwarded message |
| `Router.SendToEach` | src/server.js:78-86 | one request per recipient, in recipient order, each carrying the payload unchanged |
| `Router.Server.constructor` | src/server.js:49 | the client list starts empty |
| `Router.Server.HandleRequest` | src/server.js:65-93 | only `register` changes the list: it appends the name (no de-duplication) and replies 'Client registered'; `ping` replies 'pong' and sends nothing; `tradeExecuted` sends the payload to exactly the recipients; any other message is forwarded like an order; exactly one reply per message |
| `Router.Server.ForwardOrderToClients` | src/server.js:95-106 | sends the payload to exactly the clients other than its `clientId`, in list order, once per entry, and replies 'Order forwarded to clients' |
| `Node.Client.constructor` | src/client.js:18-25 | a node starts with an empty book and an empty trade history |
| `Node.Client.HandleIncomingOrders` | src/client.js:41-86 | ping: replies 'pong' with book and history unchanged. tradeExecuted: applies the trade whoever sent it, and emits nothing. The node's own order: skipped, nothing changes. Any other order: matched. On a match the trade is appended to the history and exactly one tradeExecuted notification with the node's id is sent to the server. Without a match the history is unchanged, nothing is sent, and the order has been added to the book |
| `Node.Client.SendOrder` | src/client.js:122-134 | the order is stamped with the node's id and added to the node's own book without matching; the request sends that same order to the server |

## Left out

- The transport and service discovery are not modelled: `Link`, `PeerRPCClient`/`PeerRPCServer`, `announce`, `listen` and the request callbacks (src/client.js:10-32, src/server.js:8-46). These are calls into a library. Outgoing requests are returned as `Protocol.Request` values, and send failures, which the source only logs, are not modelled.
- The server's liveness-pruning loop (src/server.js:48-63) is not modelled. It is driven by a timer, and its asynchronous callbacks remove entries by an index captured before other removals. Its effect depends on how the callbacks interleave.
- The client's registration and heartbeat messages (src/client.js:88-120) are not modelled. They are transport calls made at start-up and on a timer.
- The command-line prompt (src/client.js:137-198) is not modelled. It is user interface, and it parses numbers with `parseFloat`.
- Floating-point prices and amounts are modelled as exact integers. The `=== 0` test (src/orderBook.js:33) is therefore exact.
- Node ids come from `Date.now()` and ports from `Math.random()` (src/client.js:22-24). In the model the id is a constructor parameter.
- Console logging is not modelled.
- The `JSON.parse(JSON.stringify(...))` deep copy is modelled as taking an immutable value.
- Engine.OrderBook.MatchOrder: orders are values, not shared objects, so aliasing between a book and the incoming order is not captured. In the source the remainder *is* the mutated incoming object. The model returns the incoming order's post-trade value, which is the same thing as long as that object is not also resident in a book. The client never places a received order in a book before matching it.
- Orders whose `type` is neither 'buy' nor 'sell' are not modelled. Neither are orders without a `clientId`: every order a node sends carries one.
- Node.Client.HandleIncomingOrders: for a registration or an unrecognised action from another node, the source passes that field-less record to `matchOrder`, which files it on the sell side (src/client.js:59, src/orderBook.js:47-51). The model leaves the book unchanged in that case, and only the reply is modelled. Such a message never reaches a node: the server consumes `register` itself and does not forward it (src/server.js:67-71), and no component sends any action other than 'register', 'ping' and 'tradeExecuted' (src/client.js:71-75, src/client.js:88-120, src/server.js:53). A record without `side`, `price` or `amount` has no value in `Orders.Order`.
