/**
 * The two persistent entities, as values. Getters, setters and the JPA and
 * Jackson annotations carry no behaviour and are not modelled.
 */
module Entities {

  /** A stock's surrogate key (a Java Long). */
  type StockId = int

  /** A java.sql.Timestamp, as milliseconds since the epoch. */
  type Millis = int

  /**
   * A java.math.BigDecimal price, kept as its unscaled value and scale.
   * The services only store and compare prices; they never compute with them.
   */
  datatype Decimal = Decimal(unscaled: int, scale: int)

  /**
   * A stock row. The inverse association (the exchanges that list the stock)
   * is not stored here: it is the derived view Store.FindByStockId.
   */
  datatype Stock = Stock(
    id: StockId,
    name: string,
    description: string,
    currentPrice: Decimal,
    lastUpdate: Millis)

  /**
   * A stock exchange row. It owns the association: `stocks` holds the ids of
   * its member stocks (set membership is by id, one object per id).
   */
  datatype Exchange = Exchange(
    id: int,
    name: string,
    description: string,
    liveInMarket: bool,
    stocks: set<StockId>)
}
