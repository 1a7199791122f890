/**
 * StockService: create a stock, update its price, and delete it together
 * with every exchange membership that names it.
 */
module StockServices {
  import opened Wrappers
  import opened Entities
  import opened Errors
  import opened Repository

  /** The exchange with the id stripped from its set (removeIf by id); the flag is not touched. */
  function Stripped(e: Exchange, id: StockId): (r: Exchange)
    ensures r.stocks == e.stocks - {id}
    ensures r.(stocks := e.stocks) == e
  {
    e.(stocks := set s | s in e.stocks && s != id)
  }

  /**
   * The exchange table after the delete cascade: every exchange that lists
   * the id is stripped of it, every other exchange is left as it was.
   */
  function Cascade(exchanges: map<string, Exchange>, id: StockId): (r: map<string, Exchange>)
    ensures r.Keys == exchanges.Keys
    ensures forall n :: n in r ==> id !in r[n].stocks
    ensures forall n :: n in r ==> r[n].stocks == exchanges[n].stocks - {id}
    ensures forall n :: n in r ==> r[n].(stocks := exchanges[n].stocks) == exchanges[n]
  {
    map n | n in exchanges :: if id in exchanges[n].stocks then Stripped(exchanges[n], id) else exchanges[n]
  }

  /** The cascade followed by the row delete leaves no exchange naming a missing stock. */
  lemma CascadeKeepsReferences(exchanges: map<string, Exchange>, stocks: map<StockId, Stock>, id: StockId)
    requires forall n :: n in exchanges ==> exchanges[n].stocks <= stocks.Keys
    ensures forall n :: n in Cascade(exchanges, id) ==> Cascade(exchanges, id)[n].stocks <= (stocks - {id}).Keys
  {
  }

  /** Exchanges that do not list the id come through the cascade unchanged. */
  lemma CascadeSparesOthers(exchanges: map<string, Exchange>, id: StockId, n: string)
    requires n in exchanges && id !in exchanges[n].stocks
    ensures Cascade(exchanges, id)[n] == exchanges[n]
  {
  }

  /**
   * The cascade can leave an exchange live below the threshold: a live
   * exchange of five stocks that loses one through a delete is still live
   * with four, where a remove would have lowered the flag.
   */
  lemma CascadeCanLeaveStaleFlag()
    ensures var e := Exchange(0, "X", "", true, {1, 2, 3, 4, 5});
            var after := Cascade(map["X" := e], 5)["X"];
            |e.stocks| == 5 && e.liveInMarket && |after.stocks| == 4 && after.liveInMarket
  {
  }

  /** The exchanges of `names`, each saved once and nothing else written. */
  ghost predicate SavesEachOnce(log: seq<Write>, names: set<string>) {
    && (forall i :: 0 <= i < |log| ==> log[i].SavedExchange? && log[i].name in names)
    && (forall n :: n in names ==> SavedExchange(n) in log)
    && (forall i, j :: 0 <= i < j < |log| ==> log[i] != log[j])
  }

  /** Saving one more exchange, not yet saved, keeps each saved exactly once. */
  lemma SavesEachOnceExtend(log: seq<Write>, names: set<string>, n: string)
    requires SavesEachOnce(log, names) && n !in names
    ensures SavesEachOnce(log + [SavedExchange(n)], names + {n})
  {
  }

  /**
   * Part way through the cleanup loop: the exchanges in `done` are stripped,
   * every other one is as it was, and each is still filed under its name.
   */
  ghost predicate StrippedSoFar(start: map<string, Exchange>, now: map<string, Exchange>, done: set<string>, id: StockId) {
    && now.Keys == start.Keys
    && done <= start.Keys
    && (forall n :: n in start ==> start[n].name == n)
    && (forall n :: n in start ==> now[n] == if n in done then Stripped(start[n], id) else start[n])
  }

  lemma StripOneMore(start: map<string, Exchange>, now: map<string, Exchange>, done: set<string>, id: StockId, n: string)
    requires StrippedSoFar(start, now, done, id) && n in start && n !in done
    ensures now[n].name == n
    ensures StrippedSoFar(start, now[n := Stripped(now[n], id)], done + {n}, id)
  {
  }

  /** Once every exchange listing the id is stripped, the table is the cascade. */
  lemma StrippedAll(start: map<string, Exchange>, now: map<string, Exchange>, id: StockId)
    requires StrippedSoFar(start, now, (set n | n in start && id in start[n].stocks), id)
    ensures now == Cascade(start, id)
    ensures forall n :: n in now ==> now[n].name == n
  {
  }

  class StockService {
    const store: Store

    constructor (store: Store)
      ensures this.store == store
    {
      this.store := store;
    }

    /**
     * Stamps the stock with `now` and saves it. The store's answer is the
     * parameter `outcome`: stored under an identity, or rejected with an
     * integrity violation or another failure, each wrapped with its message.
     */
    method CreateStock(stock: Stock, now: Millis, outcome: SaveOutcome) returns (r: Result<Stock, Error>)
      requires store.Valid()
      modifies store
      ensures store.Valid()
      ensures outcome.Stored? ==>
                && r == Ok(stock.(id := outcome.storedId, lastUpdate := now))
                && store.stocks == old(store.stocks)[outcome.storedId := r.value]
                && store.exchanges == old(store.exchanges)
                && store.writes == old(store.writes) + [SavedStock(outcome.storedId)]
      ensures outcome.IntegrityViolation? ==>
                r == Err(Failure(IntegrityMessage(outcome.cause))) && unchanged(store)
      ensures outcome.StoreFailure? ==>
                r == Err(Failure(CreateFailureMessage(outcome.cause))) && unchanged(store)
    {
      var stamped := stock.(lastUpdate := now);
      match outcome
      case Stored(storedId) =>
        var saved := stamped.(id := storedId);
        store.SaveStock(saved);
        r := Ok(saved);
      case IntegrityViolation(cause) =>
        r := Err(Failure(IntegrityMessage(cause)));
      case StoreFailure(cause) =>
        r := Err(Failure(CreateFailureMessage(cause)));
    }

    /**
     * Sets a stock's price and stamps it with `now`. An absent id is a
     * NotFound that writes nothing.
     */
    method UpdateStockPrice(id: StockId, newPrice: Decimal, now: Millis) returns (r: Result<Stock, Error>)
      requires store.Valid()
      modifies store
      ensures store.Valid()
      ensures id !in old(store.stocks) ==> r == Err(NotFound(NotFoundMessage(id))) && unchanged(store)
      ensures id in old(store.stocks) ==>
                && r.Ok?
                && r.value.currentPrice == newPrice && r.value.lastUpdate == now
                && r.value.(currentPrice := old(store.stocks)[id].currentPrice,
                            lastUpdate := old(store.stocks)[id].lastUpdate) == old(store.stocks)[id]
                && store.stocks == old(store.stocks)[id := r.value]
                && store.exchanges == old(store.exchanges)
                && store.writes == old(store.writes) + [SavedStock(id)]
    {
      var found := store.FindById(id);
      if found.None? {
        return Err(NotFound(NotFoundMessage(id)));
      }
      var stock := found.value;
      stock := stock.(currentPrice := newPrice);
      stock := stock.(lastUpdate := now);
      store.SaveStock(stock);
      r := Ok(stock);
    }

    /**
     * Deletes a stock. An absent id is a NotFound that writes nothing.
     * Otherwise every exchange listing the id is stripped of it and saved,
     * each exactly once, and then the stock row is deleted.
     */
    method DeleteStock(stockId: StockId) returns (r: Result<(), Error>)
      requires store.Valid()
      modifies store
      ensures store.Valid()
      ensures stockId !in old(store.stocks) ==> r == Err(NotFound(NotFoundMessage(stockId))) && unchanged(store)
      ensures stockId in old(store.stocks) ==>
                && r == Ok(())
                && store.exchanges == Cascade(old(store.exchanges), stockId)
                && store.stocks == old(store.stocks) - {stockId}
                && |store.writes| > |old(store.writes)|
                && store.writes[..|old(store.writes)|] == old(store.writes)
                && store.writes[|store.writes| - 1] == DeletedStock(stockId)
                && SavesEachOnce(store.writes[|old(store.writes)|..|store.writes| - 1],
                                 old(store.FindByStockId(stockId)))
    {
      if stockId !in store.stocks {
        return Err(NotFound(NotFoundMessage(stockId)));
      }
      ghost var w0 := store.writes;
      StripFromExchanges(stockId);
      ghost var w1 := store.writes;
      CascadeKeepsReferences(old(store.exchanges), store.stocks, stockId);
      store.DeleteById(stockId);
      assert store.writes[..|w0|] == w1[..|w0|];
      assert store.writes[|w0|..|store.writes| - 1] == w1[|w0|..];
      r := Ok(());
    }

    /**
     * The cleanup loop of deleteStock: every exchange found listing the id
     * is stripped of it and saved, one at a time.
     */
    method StripFromExchanges(stockId: StockId)
      requires store.Valid()
      modifies store
      ensures store.Valid()
      ensures store.exchanges == Cascade(old(store.exchanges), stockId)
      ensures store.stocks == old(store.stocks)
      ensures |store.writes| >= |old(store.writes)|
      ensures store.writes[..|old(store.writes)|] == old(store.writes)
      ensures SavesEachOnce(store.writes[|old(store.writes)|..], old(store.FindByStockId(stockId)))
    {
      var referencing := store.FindByStockId(stockId);
      var pending := referencing;
      ghost var done: set<string> := {};
      ghost var log: seq<Write> := [];
      ghost var start := store.exchanges;
      ghost var w0 := store.writes;
      while pending != {}
        invariant pending !! done && pending + done == referencing
        invariant StrippedSoFar(start, store.exchanges, done, stockId)
        invariant store.stocks == old(store.stocks)
        invariant store.writes == w0 + log && SavesEachOnce(log, done)
        decreases pending
      {
        var name :| name in pending;
        var exchange := store.exchanges[name];
        exchange := Stripped(exchange, stockId);
        assert exchange.name == name;
        StripOneMore(start, store.exchanges, done, stockId, name);
        SavesEachOnceExtend(log, done, name);
        store.SaveExchange(exchange);
        pending := pending - {name};
        done := done + {name};
        log := log + [SavedExchange(name)];
      }
      StrippedAll(start, store.exchanges, stockId);
      CascadeKeepsReferences(start, store.stocks, stockId);
      assert store.writes[|w0|..] == log;
    }
  }
}
