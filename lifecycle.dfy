/**
 * A client of both services over one store: the life of a stock from
 * creation through a price update, an exchange listing and deletion, read
 * off the services' contracts alone.
 */
module Lifecycle {
  import opened Wrappers
  import opened Entities
  import opened Errors
  import opened Repository
  import opened ExchangeServices
  import opened StockServices

  /**
   * Creates a stock, updates its price, lists it on an exchange, deletes it,
   * and then asks for a price update again and for the exchange.
   */
  method CreateListDeleteStock(id: StockId, t1: Millis, t2: Millis, t3: Millis)
    returns (lastUpdate: Result<Stock, Error>, listing: Option<Exchange>)
    ensures lastUpdate == Err(NotFound(NotFoundMessage(id)))
    ensures listing.Some? && listing.value.stocks == {} && !listing.value.liveInMarket
  {
    var nyse := Exchange(1, "NYSE", "New York", false, {});
    var store := new Store(map["NYSE" := nyse], map[]);
    var stocks := new StockService(store);
    var exchanges := new StockExchangeService(store);

    var aapl := Stock(0, "AAPL", "Apple", Decimal(15000, 2), 0);
    var created := stocks.CreateStock(aapl, t1, Stored(id));
    assert created == Ok(aapl.(id := id, lastUpdate := t1));

    var updated := stocks.UpdateStockPrice(id, Decimal(20000, 2), t2);
    assert updated.Ok? && updated.value.currentPrice == Decimal(20000, 2);

    var added := exchanges.AddStockToStockExchange("NYSE", id);
    assert added.Some? && added.value.stocks == {id} && !added.value.liveInMarket;

    var deleted := stocks.DeleteStock(id);
    assert deleted == Ok(());

    lastUpdate := stocks.UpdateStockPrice(id, Decimal(20000, 2), t3);
    listing := exchanges.GetStockExchangeByName("NYSE");
  }
}
