/** Sampling one reference bid per market and seeding the list of markets the
    buy-all run sizes (CoinDCX.buyAll, the loop over the INR markets). */
module OrderBook {
  import opened Wrappers
  import opened Seqs
  import opened Catalog

  /** A market that entered the run, with the bid price it is sized and
      ordered at. */
  datatype Candidate = Candidate(market: Market, price: real)

  /** The bid prices of one order book, in the order the exchange lists
      them (not sorted here). The reference bid is the second one when there
      are at least two, the only one when there is one, and there is none for
      an empty bid side. */
  function ReferenceBid(bids: seq<real>): (r: Option<real>)
    ensures r.None? <==> bids == []
    ensures r.Some? ==> r.value == bids[if |bids| >= 2 then 1 else 0]
  {
    if |bids| == 0 then None
    else if |bids| >= 2 then Some(bids[1])
    else Some(bids[0])
  }

  /** The market enters the run: its pair is not excluded by the caller, its
      order book was fetched, and the book has bids. `books` holds the bid
      prices of every book that was fetched; a pair absent from it is one
      whose fetch returned nothing. */
  predicate Enters(m: Market, doNotBuy: seq<string>, books: map<string, seq<real>>) {
    m.pair !in doNotBuy && m.pair in books && books[m.pair] != []
  }

  /** The candidates of a run, in catalog order. */
  function Seeded(markets: seq<Market>, doNotBuy: seq<string>, books: map<string, seq<real>>): (cs: seq<Candidate>)
  {
    if markets == [] then []
    else
      var init, m := markets[..|markets| - 1], markets[|markets| - 1];
      var cs := Seeded(init, doNotBuy, books);
      if Enters(m, doNotBuy, books) then cs + [Candidate(m, ReferenceBid(books[m.pair]).value)]
      else cs
  }

  /** The markets of a list of candidates. */
  function MarketsOf(cs: seq<Candidate>): (ms: seq<Market>)
    ensures |ms| == |cs|
    ensures forall i :: 0 <= i < |cs| ==> ms[i] == cs[i].market
  {
    if cs == [] then [] else MarketsOf(cs[..|cs| - 1]) + [cs[|cs| - 1].market]
  }

  /** Every candidate is a catalog market that enters the run, priced at its
      reference bid; every market that enters the run is a candidate; and the
      candidates keep catalog order, so distinct pairs stay distinct. */
  lemma {:induction false} SeededExactly(markets: seq<Market>, doNotBuy: seq<string>, books: map<string, seq<real>>)
    ensures var cs := Seeded(markets, doNotBuy, books);
      && (forall c :: c in cs ==> c.market in markets && Enters(c.market, doNotBuy, books)
                                  && Some(c.price) == ReferenceBid(books[c.market.pair]))
      && (forall m :: m in markets && Enters(m, doNotBuy, books) ==> m in MarketsOf(cs))
      && SubsequenceOf(MarketsOf(cs), markets)
      && (DistinctPairs(markets) ==> DistinctPairs(MarketsOf(cs)))
  {
    var cs := Seeded(markets, doNotBuy, books);
    if markets != [] {
      var init, m := markets[..|markets| - 1], markets[|markets| - 1];
      assert markets == init + [m];
      SeededExactly(init, doNotBuy, books);
      var prior := Seeded(init, doNotBuy, books);
      if Enters(m, doNotBuy, books) {
        var c := Candidate(m, ReferenceBid(books[m.pair]).value);
        assert cs == prior + [c];
        assert MarketsOf(cs) == MarketsOf(prior) + [m];
        SubsequenceAppend(MarketsOf(prior), init, m);
        assert forall x :: x in MarketsOf(prior) ==> x in MarketsOf(cs);
      } else {
        SubsequenceExtend(MarketsOf(prior), init, m);
      }
      if DistinctPairs(markets) {
        DistinctPairsSubsequence(MarketsOf(cs), markets);
      }
    }
  }

  /** Python's buyAll loop that fills order_book_price and
      market_details_modded. */
  method Seed(markets: seq<Market>, doNotBuy: seq<string>, books: map<string, seq<real>>) returns (cs: seq<Candidate>)
    ensures cs == Seeded(markets, doNotBuy, books)
  {
    cs := [];
    for i := 0 to |markets|
      invariant cs == Seeded(markets[..i], doNotBuy, books)
    {
      assert markets[..i + 1][..i] == markets[..i];
      var m := markets[i];
      if m.pair in doNotBuy {
        continue;
      }
      if m.pair !in books {
        continue;   // the order book fetch returned nothing
      }
      var bid := ReferenceBid(books[m.pair]);
      if bid.None? {
        continue;   // no bids
      }
      cs := cs + [Candidate(m, bid.value)];
    }
    assert markets[..|markets|] == markets;
  }
}
