/**
 * The two repositories the services talk to, replaced by one in-memory
 * store: exchanges keyed by name, stocks keyed by id, and the log of the
 * writes committed to it (so that contracts can say what was saved, in
 * which order, and that nothing was).
 */
module Repository {
  import opened Wrappers
  import opened Entities

  /** One committed repository write. */
  datatype Write = SavedExchange(name: string) | SavedStock(id: StockId) | DeletedStock(id: StockId)

  /** What the stock repository did with a save: stored it under an identity, or threw. */
  datatype SaveOutcome =
    | Stored(storedId: StockId)
    | IntegrityViolation(cause: string)
    | StoreFailure(cause: string)

  class Store {
    var exchanges: map<string, Exchange>
    var stocks: map<StockId, Stock>
    var writes: seq<Write>

    /**
     * The store's consistency: an exchange is filed under its own name (the
     * model's assumption that names are unique), a stock under its own id, and
     * every id an exchange lists is a stock row (the join table's foreign key).
     */
    ghost predicate Valid()
      reads this
    {
      && (forall n :: n in exchanges ==> exchanges[n].name == n)
      && (forall k :: k in stocks ==> stocks[k].id == k)
      && (forall n :: n in exchanges ==> exchanges[n].stocks <= stocks.Keys)
    }

    constructor (exchanges: map<string, Exchange>, stocks: map<StockId, Stock>)
      requires forall n :: n in exchanges ==> exchanges[n].name == n
      requires forall k :: k in stocks ==> stocks[k].id == k
      requires forall n :: n in exchanges ==> exchanges[n].stocks <= stocks.Keys
      ensures Valid()
      ensures this.exchanges == exchanges && this.stocks == stocks && writes == []
    {
      this.exchanges := exchanges;
      this.stocks := stocks;
      writes := [];
    }

    /** StockExchangeRepository.findByName. */
    function FindByName(name: string): (r: Option<Exchange>)
      reads this
      ensures r.Some? <==> name in exchanges
      ensures r.Some? ==> r.value == exchanges[name]
    {
      if name in exchanges then Some(exchanges[name]) else None
    }

    /** StockRepository.findById. */
    function FindById(id: StockId): (r: Option<Stock>)
      reads this
      ensures r.Some? <==> id in stocks
      ensures r.Some? ==> r.value == stocks[id]
    {
      if id in stocks then Some(stocks[id]) else None
    }

    /**
     * StockExchangeRepository.findByStockId: the names of the exchanges whose
     * stock set contains the id. It is also the stock's inverse view, the
     * exchanges a stock belongs to.
     */
    function FindByStockId(id: StockId): (r: set<string>)
      reads this
      ensures r <= exchanges.Keys
      ensures forall n :: n in exchanges ==> (n in r <==> id in exchanges[n].stocks)
    {
      set n | n in exchanges && id in exchanges[n].stocks
    }

    /** Saves an exchange under its name; every other row is kept. */
    method SaveExchange(e: Exchange)
      modifies this
      ensures exchanges == old(exchanges)[e.name := e]
      ensures stocks == old(stocks)
      ensures writes == old(writes) + [SavedExchange(e.name)]
    {
      exchanges := exchanges[e.name := e];
      writes := writes + [SavedExchange(e.name)];
    }

    /** Saves a stock under its id; every other row is kept. */
    method SaveStock(s: Stock)
      modifies this
      ensures stocks == old(stocks)[s.id := s]
      ensures exchanges == old(exchanges)
      ensures writes == old(writes) + [SavedStock(s.id)]
    {
      stocks := stocks[s.id := s];
      writes := writes + [SavedStock(s.id)];
    }

    /** StockRepository.deleteById. */
    method DeleteById(id: StockId)
      modifies this
      ensures stocks == old(stocks) - {id}
      ensures exchanges == old(exchanges)
      ensures writes == old(writes) + [DeletedStock(id)]
    {
      stocks := stocks - {id};
      writes := writes + [DeletedStock(id)];
    }
  }
}
