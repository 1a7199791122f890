# Stock exchange service layer, modelled in Dafny

The StockApplication web service keeps stocks and stock exchanges. An exchange owns a
set of stocks and carries a `liveInMarket` flag, which is meant to say that the exchange
holds at least five stocks. This project models the two services that hold all of the
application's logic:

- **StockExchangeService** looks up an exchange by name and adds a stock to it or
  removes one from it. After an add it raises the flag when the set has reached five
  stocks. After a remove it lowers the flag when the set has fallen below five. In
  every other case the flag keeps its old value.
- **StockService** creates a stock and stamps its last-update time. It also updates a
  stock's price and time stamp. Deleting a stock cascades: every exchange that lists
  the stock is stripped of it and saved, and only then is the stock row deleted.

The JPA repositories are replaced by one in-memory `Store` class (module `Repository`). It
holds `exchanges: map<string, Exchange>` keyed by exchange name and
`stocks: map<StockId, Stock>` keyed by id. It also keeps `writes`, a log of the committed
saves and deletes. The log lets the contracts say "nothing was written", "each exchange
was saved exactly once" and "the row was deleted after the cleanup". `Store.Valid()` states
three facts about the store:

- every exchange is filed under its own name;
- every stock is filed under its own id;
- every id that an exchange lists is a stock row, as the join table's foreign key ensures.

Keying exchanges by name is an assumption of the model. The repository looks exchanges
up by name, but nothing in the entity makes names unique. Set membership is by stock
id; the source compares `Stock` objects by identity, which agrees with id comparison
when there is one object per id.

The services are classes (`StockExchangeService`, `StockService`) that each hold the
shared store, as the Spring beans share their repositories. Their methods update the
store in place (`modifies store`). They are proved against pure specification
functions: `WithStock` and `WithoutStock` describe the exchange after an add or a
remove, and `Cascade` describes the exchange table after a delete. The lemmas state
the properties of those functions. The delete cascade is a `while` loop over the
exchanges found for the id, with invariants saying which ones are already stripped
and saved.

The flag rule has one consequence beyond single calls. Suppose the flag agrees with
the count (`LiveDerived`). Then add and remove both keep that agreement. On such an
exchange, removing an id that was not listed before an add undoes that add exactly,
and adding back a listed id after removing it undoes that remove exactly. The delete
cascade does not touch the flag. So a live exchange with five stocks that loses one
through a stock deletion stays live with four (`CascadeCanLeaveStaleFlag`). The comments
at StockExchangeService.java:48 and :72 tie the flag to the number of stocks the
exchange holds. The cleanup in deleteStock (StockService.java:62-68) never recomputes
the flag, and the model follows the code.

Time and the store's answers are parameters. `now` stands for `System.currentTimeMillis()`.
`CreateStock` takes the store's save outcome as a parameter: the store either stores the
stock under an id, reports an integrity violation, or fails in some other way. Prices are
BigDecimal values kept as their unscaled value and scale. No computation is ever done on
them.

## Model

| member | source | states |
|---|---|---|
| `ExchangeServices.StockExchangeService.GetStockExchangeByName` | src/main/java/org/casestudy/stockapplication/service/StockExchangeService.java:25-27 | returns the exchange filed under the name when there is one and None otherwise; it writes nothing |
| `ExchangeServices.StockExchangeService.AddStockToStockExchange` | src/main/java/org/casestudy/stockapplication/service/StockExchangeService.java:29-52 | an unknown exchange or an unknown stock gives None and leaves the store unchanged; otherwise only the named exchange changes, it becomes `WithStock` of its old value, it is saved once, and the returned exchange is the stored one; the store invariant is kept |
| `ExchangeServices.StockExchangeService.RemoveStockFromStockExchange` | src/main/java/org/casestudy/stockapplication/service/StockExchangeService.java:54-75 | an unknown exchange or an unknown stock gives None and leaves the store unchanged; otherwise only the named exchange changes, it becomes `WithoutStock` of its old value, it is saved once, and the returned exchange is the stored one |
| `ExchangeServices.WithStock` | src/main/java/org/casestudy/stockapplication/service/StockExchangeService.java:46-49 | the set becomes old set ∪ {id}; at five or more stocks the flag is true; below five the flag keeps its old value; id, name and description are kept |
| `ExchangeServices.WithoutStock` | src/main/java/org/casestudy/stockapplication/service/StockExchangeService.java:70-73 | the set becomes old set \ {id}; below five stocks the flag is false; at five or more the flag keeps its old value; id, name and description are kept |
| `ExchangeServices.AddIsIdempotent` | src/main/java/org/casestudy/stockapplication/service/StockExchangeService.java:46 | adding an id that is already a member leaves the set unchanged; adding the same id twice has the same effect as adding it once |
| `ExchangeServices.RemoveIsIdempotent` | src/main/java/org/casestudy/stockapplication/service/StockExchangeService.java:70 | removing an id that is not a member leaves the set unchanged; removing the same id twice has the same effect as removing it once |
| `ExchangeServices.FlagMovesOneWayPerOperation` | src/main/java/org/casestudy/stockapplication/service/StockExchangeService.java:47-73 | the asymmetry of the flag rule: an add never lowers the flag and a remove never raises it |
| `ExchangeServices.FifthStockGoesLive` | src/main/java/org/casestudy/stockapplication/service/StockExchangeService.java:46-49 | adding a new stock to an exchange with four stocks gives five stocks and a live exchange |
| `ExchangeServices.RemoveDownToFiveStaysLive` | src/main/java/org/casestudy/stockapplication/service/StockExchangeService.java:70-73 | removing one of six stocks from a live exchange leaves five stocks, and the exchange stays live (only a count below five lowers the flag) |
| `ExchangeServices.FirstStockStaysOffMarket` | src/test/java/org/casestudy/stockapplication/unit/StockExchangeServiceTest.java:72-87 | adding a first stock to an empty exchange that is not live gives a one-element set, and the exchange is still not live |
| `ExchangeServices.AddKeepsLiveDerived` | src/main/java/org/casestudy/stockapplication/service/StockExchangeService.java:46-49 | if the flag agreed with "count ≥ 5" before an add, it agrees after it |
| `ExchangeServices.RemoveKeepsLiveDerived` | src/main/java/org/casestudy/stockapplication/service/StockExchangeService.java:70-73 | if the flag agreed with "count ≥ 5" before a remove, it agrees after it |
| `ExchangeServices.AddBelowThresholdKeepsStaleFlag` | src/main/java/org/casestudy/stockapplication/service/StockExchangeService.java:47-49 | the add does not recompute the flag below five: an exchange flagged live with three stocks is still live with four |
| `ExchangeServices.AddThenRemoveRestores` | src/main/java/org/casestudy/stockapplication/service/StockExchangeService.java:46-73 | when the flag agrees with the count, adding a new id and then removing it gives back exactly the original exchange |
| `ExchangeServices.RemoveThenAddRestores` | src/main/java/org/casestudy/stockapplication/service/StockExchangeService.java:46-73 | when the flag agrees with the count, removing a member and then adding it back gives back exactly the original exchange |
| `Repository.Store.FindByName` | src/main/java/org/casestudy/stockapplication/repository/StockExchangeRepository.java:13 | the exchange found by name is exactly the one filed under that name, and none is found when no exchange is filed under it; `GetStockExchangeByName` returns this lookup unchanged |
| `Repository.Store.FindByStockId` | src/main/java/org/casestudy/stockapplication/repository/StockExchangeRepository.java:15-16 | the exchanges found for a stock id are exactly the exchanges whose set contains the id |
| `StockServices.StockService.CreateStock` | src/main/java/org/casestudy/stockapplication/service/StockService.java:30-38 | on a stored outcome, the stock is stored with `lastUpdate = now` and the store's id, with its other fields as given, and that stored record is returned; an integrity violation fails with "Data integrity violation: " + cause, and any other failure fails with "An error occurred while creating the stock: " + cause; in both failure cases nothing changes |
| `StockServices.StockService.UpdateStockPrice` | src/main/java/org/casestudy/stockapplication/service/StockService.java:41-54 | an absent id fails with NotFound "Stock not found with id: <id>" and writes nothing; a present id always succeeds, with `currentPrice = newPrice`, `lastUpdate = now` and every other field unchanged; the result is the stored record |
| `StockServices.StockService.DeleteStock` | src/main/java/org/casestudy/stockapplication/service/StockService.java:56-71 | an absent id fails with NotFound and writes nothing; otherwise the exchange table becomes `Cascade` of the old one, the stock row is removed and all other rows remain, each exchange that listed the id is saved exactly once, and the row delete comes after those saves; the store invariant is kept |
| `StockServices.StockService.StripFromExchanges` | src/main/java/org/casestudy/stockapplication/service/StockService.java:62-68 | the cleanup loop: the exchange table becomes `Cascade` of the old one, and the writes are one save for each exchange found for the id, each saved exactly once |
| `StockServices.Stripped` | src/main/java/org/casestudy/stockapplication/service/StockService.java:66 | `removeIf` by id: the set loses the id, and every other field, the flag included, is unchanged |
| `StockServices.Cascade` | src/main/java/org/casestudy/stockapplication/service/StockService.java:62-68 | same exchange names; no exchange lists the id; each set keeps all its other members; flags and the other fields are untouched |
| `StockServices.CascadeKeepsReferences` | src/main/java/org/casestudy/stockapplication/service/StockService.java:62-70 | if every listed id was a stock row before, then after the cascade and the row delete every listed id is still a stock row |
| `StockServices.CascadeSparesOthers` | src/main/java/org/casestudy/stockapplication/service/StockService.java:62-68 | an exchange that does not list the id comes through the cascade unchanged |
| `StockServices.CascadeCanLeaveStaleFlag` | src/main/java/org/casestudy/stockapplication/service/StockService.java:65-68 | the cascade does not touch the flag: a live exchange with five stocks that loses one is still live with four |
| `StockServices.SavesEachOnceExtend` | src/main/java/org/casestudy/stockapplication/service/StockService.java:65-68 | saving one more exchange that has not been saved yet keeps "each exchange saved exactly once" |
| `Errors.NotFoundMessage` | src/main/java/org/casestudy/stockapplication/service/StockService.java:46 | the not-found message starts with "Stock not found with id: " and continues with the id |
| `Errors.NotFoundMessageNamesTheId` | src/main/java/org/casestudy/stockapplication/service/StockService.java:59 | two ids give the same not-found message only if they are equal: the message names the id |
| `Errors.IntegrityMessage` | src/main/java/org/casestudy/stockapplication/service/StockService.java:35 | the message is "Data integrity violation: " followed by the store's cause |
| `Errors.CreateFailureMessage` | src/main/java/org/casestudy/stockapplication/service/StockService.java:37 | the message is "An error occurred while creating the stock: " followed by the store's cause |
| `Errors.CreationFailuresAreDistinguishable` | src/main/java/org/casestudy/stockapplication/service/StockService.java:34-37 | an integrity-violation message never equals an other-failure message, whatever the causes |
| `Lifecycle.CreateListDeleteStock` | src/main/java/org/casestudy/stockapplication/service/StockService.java:30-71 | end to end: create a stock, update its price, list it on an exchange, then delete it; a later price update fails with NotFound for that id, and the exchange no longer lists the stock and is not live |

## Left out

- HTTP routing, the role checks and the in-memory credential store (SecurityConfig.java, StockController.java, StockExchangeController.java). They contain no logic of their own. The controllers map an empty Optional and NoSuchElementException to 404, a created or updated entity to 200, and a delete to 204. `Error.NotFound` corresponds to 404. `Error.Failure` is the RuntimeException that reaches the client as a server error.
- JPA persistence, transactions and concurrent requests. Each service method is modelled as one atomic step on the in-memory store. Generated ids are the store's answer (`SaveOutcome.Stored`), not a sequence.
- Repository reads are not logged, only writes. So the model does not state that an unknown exchange name stops the add or remove before the stock repository is queried. It does state that nothing is written in that case. Likewise, the "no exchange lookup on an absent id" half of deleteStock is not stated.
- The stock's inverse `stockExchanges` set is not separate state. It is the derived view `Store.FindByStockId`.
- Entity getters, setters, null fields and null ids. The model has no nulls.
- Aliasing of the caller's `Stock` object. `createStock` stamps `lastUpdate` on the object the caller passed, even when the save then fails. The model works on values, so that side effect on the caller's object is not captured.
- The wall clock and BigDecimal arithmetic. Time is the parameter `now`, and prices are stored and compared but never computed with.
- The order in which `findByStockId` returns exchanges. The cleanup loop picks the exchanges in an unspecified order, so the model proves the outcome for every order.
- The 64-bit range of Long ids. Ids are unbounded integers, and `IdText` is Long.toString without that bound.
- StockRepository adds nothing beyond the Spring Data defaults. Its `findById`, `existsById`, `save` and `deleteById` are modelled as `Store.FindById`, map membership, `Store.SaveStock` and `Store.DeleteById`.
