/**
 * StockExchangeService: look up an exchange by name, add a stock to it or
 * remove one, re-deciding its live-in-market flag against the threshold of
 * five stocks.
 */
module ExchangeServices {
  import opened Wrappers
  import opened Entities
  import opened Repository

  /** An exchange with this many stocks or more may be live in the market. */
  const LiveThreshold: nat := 5

  /** The flag agrees with the stock count. */
  predicate LiveDerived(e: Exchange) {
    e.liveInMarket == (|e.stocks| >= LiveThreshold)
  }

  /**
   * The exchange after a successful add: the id joins the set, and the flag
   * is raised when the set reaches the threshold and left alone otherwise.
   */
  function WithStock(e: Exchange, id: StockId): (r: Exchange)
    ensures r.stocks == e.stocks + {id}
    ensures |r.stocks| >= LiveThreshold ==> r.liveInMarket
    ensures |r.stocks| < LiveThreshold ==> r.liveInMarket == e.liveInMarket
    ensures r.id == e.id && r.name == e.name && r.description == e.description
  {
    var added := e.(stocks := e.stocks + {id});
    if |added.stocks| >= LiveThreshold then added.(liveInMarket := true) else added
  }

  /**
   * The exchange after a successful remove: the id leaves the set, and the
   * flag is lowered when the set falls below the threshold and left alone
   * otherwise.
   */
  function WithoutStock(e: Exchange, id: StockId): (r: Exchange)
    ensures r.stocks == e.stocks - {id}
    ensures |r.stocks| < LiveThreshold ==> !r.liveInMarket
    ensures |r.stocks| >= LiveThreshold ==> r.liveInMarket == e.liveInMarket
    ensures r.id == e.id && r.name == e.name && r.description == e.description
  {
    var removed := e.(stocks := e.stocks - {id});
    if |removed.stocks| < LiveThreshold then removed.(liveInMarket := false) else removed
  }

  /** Adding a member changes no set, and adding it twice is adding it once. */
  lemma AddIsIdempotent(e: Exchange, id: StockId)
    ensures id in e.stocks ==> WithStock(e, id).stocks == e.stocks
    ensures WithStock(WithStock(e, id), id) == WithStock(e, id)
  {
  }

  /** Removing a non-member changes no set, and removing twice is removing once. */
  lemma RemoveIsIdempotent(e: Exchange, id: StockId)
    ensures id !in e.stocks ==> WithoutStock(e, id).stocks == e.stocks
    ensures WithoutStock(WithoutStock(e, id), id) == WithoutStock(e, id)
  {
  }

  /** The asymmetry: an add never lowers the flag, a remove never raises it. */
  lemma FlagMovesOneWayPerOperation(e: Exchange, id: StockId)
    ensures e.liveInMarket ==> WithStock(e, id).liveInMarket
    ensures !e.liveInMarket ==> !WithoutStock(e, id).liveInMarket
  {
  }

  /** A fifth distinct stock puts an exchange live. */
  lemma FifthStockGoesLive(e: Exchange, id: StockId)
    requires |e.stocks| == 4 && id !in e.stocks
    ensures |WithStock(e, id).stocks| == 5 && WithStock(e, id).liveInMarket
  {
  }

  /** A remove that leaves exactly five stocks keeps a live exchange live. */
  lemma RemoveDownToFiveStaysLive(e: Exchange, id: StockId)
    requires e.liveInMarket && id in e.stocks && |e.stocks| == 6
    ensures |WithoutStock(e, id).stocks| == 5 && WithoutStock(e, id).liveInMarket
  {
  }

  /** The first stock added to an empty exchange that is not live leaves it not live. */
  lemma FirstStockStaysOffMarket(e: Exchange, id: StockId)
    requires e.stocks == {} && !e.liveInMarket
    ensures WithStock(e, id).stocks == {id} && |WithStock(e, id).stocks| == 1
    ensures !WithStock(e, id).liveInMarket
  {
  }

  /** Add keeps the flag in agreement with the count. */
  lemma AddKeepsLiveDerived(e: Exchange, id: StockId)
    requires LiveDerived(e)
    ensures LiveDerived(WithStock(e, id))
  {
    assert e.stocks <= WithStock(e, id).stocks;
    SubsetNoLarger(e.stocks, WithStock(e, id).stocks);
  }

  /** Remove keeps the flag in agreement with the count. */
  lemma RemoveKeepsLiveDerived(e: Exchange, id: StockId)
    requires LiveDerived(e)
    ensures LiveDerived(WithoutStock(e, id))
  {
  }

  /**
   * Without the agreement the flag can stay wrong across an add: an exchange
   * flagged live with three stocks is still live with four.
   */
  lemma AddBelowThresholdKeepsStaleFlag()
    ensures var e := Exchange(0, "X", "", true, {1, 2, 3});
            !LiveDerived(e) && |WithStock(e, 4).stocks| == 4 && !LiveDerived(WithStock(e, 4))
  {
  }

  /** On an exchange whose flag agrees with its count, removing a stock just added restores it exactly. */
  lemma AddThenRemoveRestores(e: Exchange, id: StockId)
    requires LiveDerived(e) && id !in e.stocks
    ensures WithoutStock(WithStock(e, id), id) == e
  {
  }

  /** On an exchange whose flag agrees with its count, adding back a stock just removed restores it exactly. */
  lemma RemoveThenAddRestores(e: Exchange, id: StockId)
    requires LiveDerived(e) && id in e.stocks
    ensures WithStock(WithoutStock(e, id), id) == e
  {
  }

  lemma SubsetNoLarger<T>(a: set<T>, b: set<T>)
    requires a <= b
    ensures |a| <= |b|
  {
    assert b == a + (b - a);
  }

  class StockExchangeService {
    const store: Store

    constructor (store: Store)
      ensures this.store == store
    {
      this.store := store;
    }

    /** A pure lookup by name. */
    method GetStockExchangeByName(name: string) returns (r: Option<Exchange>)
      ensures r.Some? <==> name in store.exchanges
      ensures r.Some? ==> r.value == store.exchanges[name]
    {
      r := store.FindByName(name);
    }

    /**
     * Adds a stock to the named exchange. An unknown exchange or stock gives
     * None and writes nothing; otherwise the exchange becomes WithStock of
     * itself, is saved, and is returned as stored.
     */
    method AddStockToStockExchange(name: string, stockId: StockId) returns (r: Option<Exchange>)
      requires store.Valid()
      modifies store
      ensures store.Valid()
      ensures name !in old(store.exchanges) || stockId !in old(store.stocks) ==>
                r == None && unchanged(store)
      ensures name in old(store.exchanges) && stockId in old(store.stocks) ==>
                && r == Some(WithStock(old(store.exchanges)[name], stockId))
                && store.exchanges == old(store.exchanges)[name := r.value]
                && store.stocks == old(store.stocks)
                && store.writes == old(store.writes) + [SavedExchange(name)]
    {
      var found := store.FindByName(name);
      if found.None? {
        return None;
      }
      var stock := store.FindById(stockId);
      if stock.None? {
        return None;
      }
      var exchange := found.value;
      exchange := exchange.(stocks := exchange.stocks + {stock.value.id});
      if |exchange.stocks| >= LiveThreshold {
        exchange := exchange.(liveInMarket := true);
      }
      store.SaveExchange(exchange);
      r := Some(exchange);
    }

    /**
     * Removes a stock from the named exchange. An unknown exchange or stock
     * gives None and writes nothing; otherwise the exchange becomes
     * WithoutStock of itself, is saved, and is returned as stored.
     */
    method RemoveStockFromStockExchange(name: string, stockId: StockId) returns (r: Option<Exchange>)
      requires store.Valid()
      modifies store
      ensures store.Valid()
      ensures name !in old(store.exchanges) || stockId !in old(store.stocks) ==>
                r == None && unchanged(store)
      ensures name in old(store.exchanges) && stockId in old(store.stocks) ==>
                && r == Some(WithoutStock(old(store.exchanges)[name], stockId))
                && store.exchanges == old(store.exchanges)[name := r.value]
                && store.stocks == old(store.stocks)
                && store.writes == old(store.writes) + [SavedExchange(name)]
    {
      var found := store.FindByName(name);
      if found.None? {
        return None;
      }
      var stock := store.FindById(stockId);
      if stock.None? {
        return None;
      }
      var exchange := found.value;
      exchange := exchange.(stocks := exchange.stocks - {stock.value.id});
      if |exchange.stocks| < LiveThreshold {
        exchange := exchange.(liveInMarket := false);
      }
      store.SaveExchange(exchange);
      r := Some(exchange);
    }
  }
}
