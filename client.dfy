/** The CoinDCX client object: its one-shot count of INR markets
    (MAX_COINS_IN_COINDCX, set by the first successful marketDetails call)
    and the buy-all run that ties funds, catalog, order books and the
    allocator together. Every fetch is an input: None stands for a
    getAPIData call that returned None. */
module Client {
  import opened Wrappers
  import opened Catalog
  import opened OrderBook
  import opened Allocation
  import opened Symbols
  import opened Funds
  import opened Api

  /** Why a buy-all run stopped before sizing anything. */
  datatype Abort = FundsUnavailable | MarketDetailsUnavailable

  /** How a buy-all run ends: aborted with a message, raised
      ZeroDivisionError, or posted these orders in this order. */
  datatype BuyOutcome = Aborted(reason: Abort) | Crashed(crash: Crash) | Placed(orders: seq<Order>)

  /** The excluded pairs: args.do_not_buy or []. */
  function Excluded(doNotBuy: Option<seq<string>>): seq<string> {
    if doNotBuy.Some? then doNotBuy.value else []
  }

  /** What a buy-all run does, given the funds it read, the INR markets it
      read, and the market count as it stands once the markets were read. */
  function BuyOutcomeFor(funds: Option<real>, markets: Option<seq<Market>>, maxCoins: int,
                         doNotBuy: seq<string>, books: map<string, seq<real>>): BuyOutcome
  {
    if funds.None? then Aborted(FundsUnavailable)
    else if markets.None? then Aborted(MarketDetailsUnavailable)
    else if maxCoins == 0 then Crashed(ZeroMarketCount)
    else
      match Plan(funds.value, Seeded(markets.value, doNotBuy, books))
      case Failure(e) => Crashed(e)
      case Success(orders) => Placed(orders)
  }

  class CoinDCX {
    /** MAX_COINS_IN_COINDCX: the number of INR markets in the first catalog
        fetched successfully. */
    var maxCoins: int
    /** __updated_max_coins: a catalog has been fetched successfully. */
    var updatedMaxCoins: bool

    ghost predicate Valid()
      reads this
    {
      maxCoins >= 0 && (!updatedMaxCoins ==> maxCoins == 0)
    }

    /** __init__: starts the count at zero and reads the catalog once. */
    constructor (catalog: Option<seq<Market>>)
      ensures Valid()
      ensures catalog.None? ==> maxCoins == 0 && !updatedMaxCoins
      ensures catalog.Some? ==> maxCoins == |InrMarkets(catalog.value)| && updatedMaxCoins
    {
      maxCoins := 0;
      updatedMaxCoins := false;
      new;
      var _ := MarketDetails(catalog);
    }

    /** marketDetails: the INR records of the catalog, None when the fetch
        failed. Only the first successful call counts the INR records; a
        failed call changes nothing. */
    method MarketDetails(data: Option<seq<Market>>) returns (r: Option<seq<Market>>)
      requires Valid()
      modifies this
      ensures Valid()
      ensures data.None? ==> r.None? && maxCoins == old(maxCoins) && updatedMaxCoins == old(updatedMaxCoins)
      ensures data.Some? ==> r == Some(InrMarkets(data.value)) && updatedMaxCoins
      ensures data.Some? && !old(updatedMaxCoins) ==> maxCoins == |InrMarkets(data.value)|
      ensures old(updatedMaxCoins) ==> maxCoins == old(maxCoins)
    {
      if data.None? {
        return None;
      }
      var records := data.value;
      var ret := [];
      for i := 0 to |records|
        invariant ret == InrMarkets(records[..i])
        invariant maxCoins == if updatedMaxCoins then old(maxCoins) else |ret|
        invariant updatedMaxCoins == old(updatedMaxCoins)
      {
        assert records[..i + 1][..i] == records[..i];
        var c := records[i];
        if c.baseCurrency == Inr {
          if !updatedMaxCoins {
            maxCoins := maxCoins + 1;
          }
          ret := ret + [c];
        }
      }
      assert records[..|records|] == records;
      updatedMaxCoins := true;
      return Some(ret);
    }

    /** buyAll. The run reads the funds, then the catalog (which may set the
        market count), then divides by the count before the loop over the
        markets, which raises when the count is zero. */
    method BuyAll(doNotBuy: Option<seq<string>>, balances: Option<seq<BalanceRecord>>,
                  catalog: Option<seq<Market>>, books: map<string, seq<real>>)
      returns (outcome: BuyOutcome)
      requires Valid()
      requires catalog.Some? ==> DistinctPairs(catalog.value)
      modifies this
      ensures Valid()
      ensures balances.None? ==> maxCoins == old(maxCoins) && updatedMaxCoins == old(updatedMaxCoins)
      ensures balances.Some? && catalog.None? ==> maxCoins == old(maxCoins) && updatedMaxCoins == old(updatedMaxCoins)
      ensures balances.Some? && catalog.Some? ==> updatedMaxCoins
      ensures balances.Some? && catalog.Some? && !old(updatedMaxCoins) ==> maxCoins == |InrMarkets(catalog.value)|
      ensures old(updatedMaxCoins) ==> maxCoins == old(maxCoins)
      ensures outcome == BuyOutcomeFor(
        if balances.Some? then Some(AvailableFunds(balances.value)) else None,
        if catalog.Some? then Some(InrMarkets(catalog.value)) else None,
        maxCoins, Excluded(doNotBuy), books)
    {
      var buyExcept := if doNotBuy.Some? then doNotBuy.value else [];
      var fundsAvail := GetFundsAvail(balances);
      if fundsAvail.None? {
        return Aborted(FundsUnavailable);
      }
      var marketDetails := MarketDetails(catalog);
      if marketDetails.None? {
        return Aborted(MarketDetailsUnavailable);
      }
      if maxCoins == 0 {
        return Crashed(ZeroMarketCount);
      }
      var markets := marketDetails.value;
      DistinctPairsSubsequence(markets, catalog.value);
      var cs := Seed(markets, buyExcept, books);
      SeededUnique(markets, buyExcept, books);
      var plan := PlanOrders(fundsAvail.value, cs);
      match plan
      case Failure(e) => return Crashed(e);
      case Success(orders) => return Placed(orders);
    }
  }

  /** Once a catalog has been read, later reads leave the count alone: a
      client built on one catalog keeps its count through a later one. */
  method CountAfterTwoCatalogs(first: seq<Market>, later: seq<Market>) returns (count: int)
    ensures count == |InrMarkets(first)|
  {
    var client := new CoinDCX(Some(first));
    var _ := client.MarketDetails(Some(later));
    count := client.maxCoins;
  }

  /** A client whose first catalog read failed counts the next catalog it
      reads. */
  method CountAfterFailedStart(later: seq<Market>) returns (count: int)
    ensures count == |InrMarkets(later)|
  {
    var client := new CoinDCX(None);
    var _ := client.MarketDetails(Some(later));
    count := client.maxCoins;
  }

  /** An order the client may place for this catalog, exclusion list and
      books: a limit buy of a catalog market that was not excluded and whose
      book has bids, at that book's reference bid. */
  predicate Allowed(o: Order, markets: seq<Market>, doNotBuy: seq<string>, books: map<string, seq<real>>) {
    && o.side == "buy" && o.orderType == "limit_order"
    && exists m :: (m in markets && Enters(m, doNotBuy, books)
         && o.market == MarketSymbol(m.pair) && Some(o.pricePerUnit) == ReferenceBid(books[m.pair]))
  }

  /** Every order a run places is allowed. */
  lemma PlacedOrdersAreAllowed(funds: real, markets: seq<Market>, maxCoins: int,
                               doNotBuy: seq<string>, books: map<string, seq<real>>)
    requires DistinctPairs(markets)
    requires BuyOutcomeFor(Some(funds), Some(markets), maxCoins, doNotBuy, books).Placed?
    ensures forall o :: o in BuyOutcomeFor(Some(funds), Some(markets), maxCoins, doNotBuy, books).orders ==>
      Allowed(o, markets, doNotBuy, books)
  {
    var cs := Seeded(markets, doNotBuy, books);
    var orders := BuyOutcomeFor(Some(funds), Some(markets), maxCoins, doNotBuy, books).orders;
    PlacedIsPlan(funds, markets, maxCoins, doNotBuy, books);
    SeededUnique(markets, doNotBuy, books);
    PlacedAreCandidates(funds, cs, orders);
    forall o | o in orders ensures Allowed(o, markets, doNotBuy, books) {
      var i :| 0 <= i < |cs| && o == OrderFor(cs[i], o.totalQuantity);
      CandidateOrderAllowed(markets, doNotBuy, books, cs[i], o.totalQuantity);
    }
  }

  /** The orders of a run that places orders are the plan's. */
  lemma PlacedIsPlan(funds: real, markets: seq<Market>, maxCoins: int,
                     doNotBuy: seq<string>, books: map<string, seq<real>>)
    requires BuyOutcomeFor(Some(funds), Some(markets), maxCoins, doNotBuy, books).Placed?
    ensures Plan(funds, Seeded(markets, doNotBuy, books))
      == Success(BuyOutcomeFor(Some(funds), Some(markets), maxCoins, doNotBuy, books).orders)
  {
  }

  /** Distinct catalog pairs give candidates with distinct pairs. */
  lemma SeededUnique(markets: seq<Market>, doNotBuy: seq<string>, books: map<string, seq<real>>)
    requires DistinctPairs(markets)
    ensures UniquePairs(Seeded(markets, doNotBuy, books))
  {
    SeededExactly(markets, doNotBuy, books);
    UniquePairsOfMarkets(Seeded(markets, doNotBuy, books));
  }

  /** The order for a candidate of the run is allowed, whatever its
      quantity. */
  lemma CandidateOrderAllowed(markets: seq<Market>, doNotBuy: seq<string>, books: map<string, seq<real>>,
                              c: Candidate, q: Number)
    requires c in Seeded(markets, doNotBuy, books)
    ensures Allowed(OrderFor(c, q), markets, doNotBuy, books)
  {
    SeededExactly(markets, doNotBuy, books);
    assert c.market in markets && Enters(c.market, doNotBuy, books);
  }

  /** The JSON value of an order quantity. */
  function QuantityJson(q: Number): Json {
    match q
    case Int(i) => JInt(i)
    case Float(f) => JFloat(f)
  }

  /** The body of an orders/create request, keys in the order buyAll writes
      them. */
  function OrderBody(o: Order): Body {
    [("side", JString(o.side)), ("order_type", JString(o.orderType)), ("market", JString(o.market)),
     ("price_per_unit", JFloat(o.pricePerUnit)), ("total_quantity", QuantityJson(o.totalQuantity))]
  }

  /** The signed body of an order request carries the timestamp first and
      then the five order fields, each with the order's value. */
  lemma OrderRequestBody(timestamp: int, o: Order)
    ensures var body := Merged(timestamp, Some(OrderBody(o)));
      && Keys(body) == ["timestamp", "side", "order_type", "market", "price_per_unit", "total_quantity"]
      && Lookup(body, "timestamp") == Some(JInt(timestamp))
      && Lookup(body, "market") == Some(JString(o.market))
      && Lookup(body, "total_quantity") == Some(QuantityJson(o.totalQuantity))
      && body == [("timestamp", JInt(timestamp))] + OrderBody(o)
  {
    var body := [("timestamp", JInt(timestamp))] + OrderBody(o);
    OrderBodyKeys(timestamp, o);
    UpdatedFresh([("timestamp", JInt(timestamp))], OrderBody(o));
    LookupAt(body, 0);
    LookupAt(body, 3);
    LookupAt(body, 5);
  }

  /** The timestamp and the five order keys are six distinct keys. */
  lemma OrderBodyKeys(timestamp: int, o: Order)
    ensures var body := [("timestamp", JInt(timestamp))] + OrderBody(o);
      && UniqueKeys(body)
      && Keys(body) == ["timestamp", "side", "order_type", "market", "price_per_unit", "total_quantity"]
  {
    var body := [("timestamp", JInt(timestamp))] + OrderBody(o);
    var ks := ["timestamp", "side", "order_type", "market", "price_per_unit", "total_quantity"];
    assert forall i :: 0 <= i < 6 ==> body[i].0 == ks[i];
    assert forall i, j :: 0 <= i < j < 6 ==> ks[i] != ks[j] by {
      assert ks[0][0] == 't' && ks[1][0] == 's' && ks[2][0] == 'o' && ks[3][0] == 'm' && ks[4][0] == 'p';
      assert ks[5][1] == 'o' && ks[0][1] == 'i' && ks[1][1] == 'i' && ks[2][1] == 'r' && ks[3][1] == 'a' && ks[4][1] == 'r';
    }
  }

  /** The signed body of a lend request: the timestamp, then currency,
      duration and amount. */
  lemma LendRequestBody(timestamp: int, req: LendRequest)
    ensures var body := Merged(timestamp, Some(req.Body()));
      && Keys(body) == ["timestamp", "currency_short_name", "duration", "amount"]
      && Lookup(body, "amount") == Some(JFloat(req.amount))
  {
    var body := [("timestamp", JInt(timestamp))] + req.Body();
    assert UniqueKeys(body);
    UpdatedFresh([("timestamp", JInt(timestamp))], req.Body());
    LookupAt(body, 3);
  }
}
