/** The equal-weight allocator of CoinDCX.buyAll: sizes one limit buy order
    per candidate market from a single pool of INR funds, drops the markets
    whose quantity rounds to zero, re-sizes the rest once, and emits the
    orders cheapest first. */
module Allocation {
  import opened Wrappers
  import opened Rounding
  import opened Catalog
  import opened OrderBook
  import opened PriceOrder
  import opened Symbols

  /** A JSON number as Python builds it: `int(...)` for whole quantities,
      a float otherwise (serialised as 7 and as 7.0 respectively). */
  datatype Number = Int(i: int) | Float(f: real) {
    function Value(): real {
      match this
      case Int(i) => i as real
      case Float(f) => f
    }
  }

  /** The body of one orders/create request. */
  datatype Order = Order(side: string, orderType: string, market: string, pricePerUnit: real, totalQuantity: Number)

  /** The ZeroDivisionError a run can raise, by the division that raises it:
      the informational per-coin amount over MAX_COINS_IN_COINDCX, a zero
      reference bid in the first sizing pass, and the re-sized per-coin
      amount when no market is left. */
  datatype Crash = ZeroMarketCount | ZeroBidPrice | NoMarketLeft

  predicate PricesNonZero(cs: seq<Candidate>) {
    forall i :: 0 <= i < |cs| ==> cs[i].price != 0.0
  }

  predicate PricesPositive(cs: seq<Candidate>) {
    forall i :: 0 <= i < |cs| ==> cs[i].price > 0.0
  }

  /** round(share / price, precision), made an int when the precision is 0. */
  function QuantityFor(share: real, c: Candidate): (q: Number)
    requires c.price != 0.0
    ensures q.Value() == RoundTo(share / c.price, c.market.precision)
    ensures q.Int? <==> c.market.precision == 0
  {
    var q := RoundTo(share / c.price, c.market.precision);
    if c.market.precision == 0 then
      assert (RoundHalfEven(share / c.price) as real).Floor == RoundHalfEven(share / c.price);
      Int(q.Floor)
    else Float(q)
  }

  /** The market's quantity at this share rounds to zero: share / price is
      within half a unit of the precision's last decimal place of zero. */
  predicate RoundsToZero(share: real, c: Candidate)
    requires c.price != 0.0
  {
    -0.5 <= Scale(share / c.price, c.market.precision) <= 0.5
  }

  /** Python's `quantity == 0.0` holds exactly when the quantity rounds to
      zero (an int 0 compares equal to 0.0). */
  lemma QuantityZeroExactly(share: real, c: Candidate)
    requires c.price != 0.0
    ensures QuantityFor(share, c).Value() == 0.0 <==> RoundsToZero(share, c)
  {
    RoundToIsZero(share / c.price, c.market.precision);
  }

  /** The number of set flags. */
  function CountTrue(flags: seq<bool>): nat {
    if flags == [] then 0
    else CountTrue(flags[..|flags| - 1]) + (if flags[|flags| - 1] then 1 else 0)
  }

  lemma {:induction false} CountTrueBound(flags: seq<bool>)
    ensures CountTrue(flags) <= |flags|
    decreases |flags|
  {
    if flags != [] {
      CountTrueBound(flags[..|flags| - 1]);
    }
  }

  lemma CountTrueAppend(flags: seq<bool>, b: bool)
    ensures CountTrue(flags + [b]) == CountTrue(flags) + (if b then 1 else 0)
  {
    assert (flags + [b])[..|flags|] == flags;
  }

  lemma {:induction false} CountTruePrefix(flags: seq<bool>, i: nat)
    requires i <= |flags|
    ensures CountTrue(flags[..i]) <= CountTrue(flags)
    ensures CountTrue(flags[..i]) + (|flags| - i) >= CountTrue(flags)
    decreases |flags|
  {
    if i < |flags| {
      var init := flags[..|flags| - 1];
      assert init[..i] == flags[..i];
      CountTruePrefix(init, i);
    } else {
      assert flags[..i] == flags;
    }
  }

  /** The flags of a pass that tests the markets in order, handing each
      test the starting count n less the number of markets flagged before
      it. The first pass of buyAll is this pass with DropAt as the test. */
  function RunningFlags(funds: real, cs: seq<Candidate>, n: int, drop: (real, int, Candidate) -> bool): (flags: seq<bool>)
    ensures |flags| == |cs|
  {
    if cs == [] then []
    else
      var prior := RunningFlags(funds, cs[..|cs| - 1], n, drop);
      prior + [drop(funds, n - CountTrue(prior), cs[|cs| - 1])]
  }

  /** The first pass's test for one market: with the funds spread over
      count markets, its quantity rounds to zero. */
  predicate DropAt(funds: real, count: int, c: Candidate) {
    count != 0 && c.price != 0.0 && RoundsToZero(funds / count as real, c)
  }

  /** The no_buy flags of the first sizing pass over cs, with n markets
      counted at the start of the pass. The pass divides the funds by a
      running count that drops by one as soon as a market is flagged, so a
      market sees a share computed after the markets before it. */
  function FirstPassFlags(funds: real, cs: seq<Candidate>, n: int): seq<bool> {
    RunningFlags(funds, cs, n, DropAt)
  }

  lemma {:induction false} RunningPrefix(funds: real, cs: seq<Candidate>, n: int, drop: (real, int, Candidate) -> bool, k: nat)
    requires k <= |cs|
    ensures RunningFlags(funds, cs[..k], n, drop) == RunningFlags(funds, cs, n, drop)[..k]
    decreases |cs|
  {
    if k < |cs| {
      var init := cs[..|cs| - 1];
      assert init[..k] == cs[..k];
      RunningPrefix(funds, init, n, drop, k);
    } else {
      assert cs[..k] == cs;
    }
  }

  /** Flag i is the test of market i at the starting count less the flags
      before it, a count never below n - i. */
  lemma RunningMeaning(funds: real, cs: seq<Candidate>, n: int, drop: (real, int, Candidate) -> bool, i: nat)
    requires i < |cs|
    ensures var flags := RunningFlags(funds, cs, n, drop);
      && n - CountTrue(flags[..i]) >= n - i
      && flags[i] == drop(funds, n - CountTrue(flags[..i]), cs[i])
  {
    var flags := RunningFlags(funds, cs, n, drop);
    var prior := RunningFlags(funds, cs[..i], n, drop);
    var b := drop(funds, n - CountTrue(prior), cs[i]);
    RunningPrefix(funds, cs, n, drop, i);
    RunningPrefix(funds, cs, n, drop, i + 1);
    RunningStep(funds, cs, n, drop, i);
    assert flags[i] == flags[..i + 1][i];
    assert (prior + [b])[i] == b;
    CountTrueBound(prior);
  }

  /** Testing one more market appends its flag. */
  lemma RunningStep(funds: real, cs: seq<Candidate>, n: int, drop: (real, int, Candidate) -> bool, i: nat)
    requires i < |cs|
    ensures RunningFlags(funds, cs[..i + 1], n, drop)
      == RunningFlags(funds, cs[..i], n, drop) + [drop(funds, n - CountTrue(RunningFlags(funds, cs[..i], n, drop)), cs[i])]
  {
    var head := cs[..i + 1];
    assert head[..|head| - 1] == cs[..i] && head[|head| - 1] == cs[i];
  }

  /** The first pass, market by market: the count a market sees is the
      starting count less the markets flagged before it, never below 1,
      and the market is flagged exactly when its quantity at funds over
      that count rounds to zero. */
  lemma FirstPassMeaning(funds: real, cs: seq<Candidate>, n: int, i: nat)
    requires |cs| <= n && PricesNonZero(cs) && i < |cs|
    ensures n - CountTrue(FirstPassFlags(funds, cs, n)[..i]) >= n - |cs| + 1 >= 1
    ensures FirstPassFlags(funds, cs, n)[i]
        <==> RoundsToZero(funds / (n - CountTrue(FirstPassFlags(funds, cs, n)[..i])) as real, cs[i])
  {
    RunningMeaning(funds, cs, n, DropAt, i);
  }

  /** The test of the first pass is the quantity rounding to zero. */
  lemma DropAtExactly(funds: real, count: int, c: Candidate)
    requires count >= 1 && c.price != 0.0
    ensures DropAt(funds, count, c) <==> QuantityFor(funds / count as real, c).Value() == 0.0
  {
    QuantityZeroExactly(funds / count as real, c);
  }

  /** The first pass over one more market appends that market's flag. */
  lemma FirstPassStep(funds: real, cs: seq<Candidate>, i: nat)
    requires i < |cs|
    ensures FirstPassFlags(funds, cs[..i + 1], |cs|) == FirstPassFlags(funds, cs[..i], |cs|)
      + [DropAt(funds, |cs| - CountTrue(FirstPassFlags(funds, cs[..i], |cs|)), cs[i])]
  {
    RunningStep(funds, cs, |cs|, DropAt, i);
  }

  /** The first loop of buyAll over market_details. The division by a zero
      reference bid raises, and nothing has been placed by then. */
  method FirstPass(funds: real, cs: seq<Candidate>) returns (r: Result<(seq<bool>, int), Crash>)
    ensures r.Failure? <==> !PricesNonZero(cs)
    ensures r.Failure? ==> r.error == ZeroBidPrice
    ensures r.Success? ==> r.value.0 == FirstPassFlags(funds, cs, |cs|)
    ensures r.Success? ==> r.value.1 == |cs| - CountTrue(r.value.0)
  {
    var flags, count := [], |cs|;
    for i := 0 to |cs|
      invariant forall j :: 0 <= j < i ==> cs[j].price != 0.0
      invariant flags == FirstPassFlags(funds, cs[..i], |cs|)
      invariant count == |cs| - CountTrue(flags)
    {
      if cs[i].price == 0.0 {
        return Failure(ZeroBidPrice);
      }
      assert count >= |cs| - i >= 1 by {
        CountTrueBound(flags);
      }
      var fundsPerCoin := funds / count as real;
      var quantity := QuantityFor(fundsPerCoin, cs[i]);
      var noBuy := quantity.Value() == 0.0;
      DropAtExactly(funds, count, cs[i]);
      FirstPassStep(funds, cs, i);
      CountTrueAppend(flags, noBuy);
      if noBuy {
        count := count - 1;
      }
      flags := flags + [noBuy];
    }
    assert cs[..|cs|] == cs;
    return Success((flags, count));
  }

  /** The pairs the first pass flagged no_buy. */
  function FlaggedPairs(cs: seq<Candidate>, flags: seq<bool>): set<string>
    requires |flags| == |cs|
  {
    set i | 0 <= i < |cs| && flags[i] :: cs[i].market.pair
  }

  /** book without the entries whose pair is in dropped, order kept. */
  function Without(book: seq<Candidate>, dropped: set<string>): (r: seq<Candidate>)
    ensures |r| <= |book|
    ensures forall c :: c in r <==> c in book && c.market.pair !in dropped
  {
    if book == [] then []
    else
      var init, c := book[..|book| - 1], book[|book| - 1];
      assert book == init + [c];
      Without(init, dropped) + (if c.market.pair in dropped then [] else [c])
  }

  /** The candidates that were not flagged, in catalog order. */
  function Survivors(cs: seq<Candidate>, flags: seq<bool>): seq<Candidate>
    requires |flags| == |cs|
  {
    Without(cs, FlaggedPairs(cs, flags))
  }

  /** No two candidates share a pair. */
  predicate UniquePairs(cs: seq<Candidate>) {
    forall i, j :: 0 <= i < j < |cs| ==> cs[i].market.pair != cs[j].market.pair
  }

  lemma UniquePairsOfMarkets(cs: seq<Candidate>)
    requires DistinctPairs(MarketsOf(cs))
    ensures UniquePairs(cs)
  {
    forall i, j | 0 <= i < j < |cs| ensures cs[i].market.pair != cs[j].market.pair {
      assert MarketsOf(cs)[i] == cs[i].market && MarketsOf(cs)[j] == cs[j].market;
    }
  }

  /** With distinct pairs, a candidate survives exactly when it was not
      flagged. */
  lemma SurvivorsAreUnflagged(cs: seq<Candidate>, flags: seq<bool>)
    requires |flags| == |cs| && UniquePairs(cs)
    ensures forall i :: 0 <= i < |cs| ==> (cs[i] in Survivors(cs, flags) <==> !flags[i])
  {
    var dropped := FlaggedPairs(cs, flags);
    forall i | 0 <= i < |cs| && flags[i] ensures cs[i] !in Survivors(cs, flags) {
      assert cs[i].market.pair in dropped;
    }
    forall i | 0 <= i < |cs| && !flags[i] ensures cs[i] in Survivors(cs, flags) {
      assert forall j :: 0 <= j < |cs| && flags[j] ==> cs[j].market.pair != cs[i].market.pair;
    }
  }

  /** The candidates whose flag is off, in order. */
  function Kept(cs: seq<Candidate>, flags: seq<bool>): seq<Candidate>
    requires |flags| == |cs|
  {
    if cs == [] then []
    else Kept(cs[..|cs| - 1], flags[..|flags| - 1]) + (if flags[|flags| - 1] then [] else [cs[|cs| - 1]])
  }

  /** With distinct pairs, deleting the flagged pairs keeps exactly the
      unflagged candidates, so as many markets survive as the count the
      first pass ends with. */
  lemma {:induction false} SurvivorsAreKept(cs: seq<Candidate>, flags: seq<bool>)
    requires |flags| == |cs| && UniquePairs(cs)
    ensures Survivors(cs, flags) == Kept(cs, flags)
    ensures |Survivors(cs, flags)| == |cs| - CountTrue(flags)
    decreases |cs|
  {
    if cs != [] {
      var init, c := cs[..|cs| - 1], cs[|cs| - 1];
      var f', b := flags[..|flags| - 1], flags[|flags| - 1];
      assert UniquePairs(init);
      SurvivorsAreKept(init, f');
      SurvivorsExtend(cs, flags);
      assert Kept(cs, flags) == Kept(init, f') + (if b then [] else [c]);
      assert CountTrue(flags) == CountTrue(f') + (if b then 1 else 0);
    }
  }

  /** With distinct pairs, the survivors of one more candidate are the
      survivors before it, followed by it when it is not flagged. */
  lemma SurvivorsExtend(cs: seq<Candidate>, flags: seq<bool>)
    requires |flags| == |cs| > 0 && UniquePairs(cs)
    ensures var init, c := cs[..|cs| - 1], cs[|cs| - 1];
      var f', b := flags[..|flags| - 1], flags[|flags| - 1];
      Survivors(cs, flags) == Survivors(init, f') + (if b then [] else [c])
  {
    var init, c := cs[..|cs| - 1], cs[|cs| - 1];
    var f', b := flags[..|flags| - 1], flags[|flags| - 1];
    var extra: set<string> := if b then {c.market.pair} else {};
    FlaggedPairsExtend(cs, flags);
    forall x | x in init ensures x.market.pair !in extra {
      var k :| 0 <= k < |init| && init[k] == x;
      assert init[k] == cs[k];
    }
    WithoutUnaffected(init, FlaggedPairs(init, f'), extra);
    var dropped := FlaggedPairs(cs, flags);
    assert c.market.pair in dropped <==> b by {
      forall k | 0 <= k < |init| ensures init[k].market.pair != c.market.pair {
        assert init[k] == cs[k];
      }
    }
    assert Without(cs, dropped) == Without(init, dropped) + (if b then [] else [c]);
  }

  lemma FlaggedPairsExtend(cs: seq<Candidate>, flags: seq<bool>)
    requires |flags| == |cs| > 0
    ensures FlaggedPairs(cs, flags)
      == FlaggedPairs(cs[..|cs| - 1], flags[..|flags| - 1])
         + (if flags[|flags| - 1] then {cs[|cs| - 1].market.pair} else {})
  {
    var init, f' := cs[..|cs| - 1], flags[..|flags| - 1];
    forall p | p in FlaggedPairs(cs, flags)
      ensures p in FlaggedPairs(init, f') + (if flags[|flags| - 1] then {cs[|cs| - 1].market.pair} else {})
    {
      var k :| 0 <= k < |cs| && flags[k] && cs[k].market.pair == p;
      if k < |init| {
        assert init[k] == cs[k] && f'[k] == flags[k];
      }
    }
    forall p | p in FlaggedPairs(init, f') ensures p in FlaggedPairs(cs, flags) {
      var k :| 0 <= k < |init| && f'[k] && init[k].market.pair == p;
      assert cs[k] == init[k] && flags[k] == f'[k];
    }
  }

  /** Dropping pairs that do not occur in the book changes nothing. */
  lemma {:induction false} WithoutUnaffected(book: seq<Candidate>, dropped: set<string>, extra: set<string>)
    requires forall c :: c in book ==> c.market.pair !in extra
    ensures Without(book, dropped + extra) == Without(book, dropped)
    decreases |book|
  {
    if book != [] {
      WithoutUnaffected(book[..|book| - 1], dropped, extra);
    }
  }

  /** Dropping pairs in two steps drops their union. */
  lemma {:induction false} WithoutTwice(book: seq<Candidate>, d: set<string>, e: set<string>)
    ensures Without(Without(book, d), e) == Without(book, d + e)
    decreases |book|
  {
    if book != [] {
      var init, c := book[..|book| - 1], book[|book| - 1];
      WithoutTwice(init, d, e);
      WithoutAppend(Without(init, d), if c.market.pair in d then [] else [c], e);
    }
  }

  /** Dropping pairs keeps a price-sorted book sorted. */
  lemma {:induction false} WithoutSorted(book: seq<Candidate>, d: set<string>)
    requires SortedByPrice(book)
    ensures SortedByPrice(Without(book, d))
    decreases |book|
  {
    if book != [] {
      var init, c := book[..|book| - 1], book[|book| - 1];
      assert SortedByPrice(init);
      WithoutSorted(init, d);
      forall x | x in Without(init, d) ensures x.price <= c.price {
        var k :| 0 <= k < |init| && init[k] == x;
        assert book[k] == x;
      }
    }
  }

  /** Dropping pairs commutes with selecting one price. */
  lemma {:induction false} WithoutAtPrice(book: seq<Candidate>, d: set<string>, v: real)
    ensures AtPrice(Without(book, d), v) == Without(AtPrice(book, v), d)
    decreases |book|
  {
    if book != [] {
      var init, c := book[..|book| - 1], book[|book| - 1];
      WithoutAtPrice(init, d, v);
      AtPriceAppend(Without(init, d), if c.market.pair in d then [] else [c], v);
      var a := AtPrice(init, v);
      var tail := if c.price == v then [c] else [];
      WithoutAppend(a, tail, d);
    }
  }

  lemma {:induction false} WithoutAppend(a: seq<Candidate>, b: seq<Candidate>, d: set<string>)
    ensures Without(a + b, d) == Without(a, d) + Without(b, d)
    decreases |b|
  {
    if b != [] {
      var init := b[..|b| - 1];
      assert (a + b)[..|a + b| - 1] == a + init;
      WithoutAppend(a, init, d);
    } else {
      assert a + b == a;
    }
  }

  /** Deleting pairs from the price-sorted book, as the second pass does,
      leaves the surviving candidates sorted by price with ties in catalog
      order. */
  lemma SortThenDrop(cs: seq<Candidate>, d: set<string>)
    ensures Without(SortByPrice(cs), d) == SortByPrice(Without(cs, d))
  {
    SortByPriceCorrect(cs);
    SortByPriceCorrect(Without(cs, d));
    WithoutSorted(SortByPrice(cs), d);
    forall v ensures AtPrice(Without(SortByPrice(cs), d), v) == AtPrice(SortByPrice(Without(cs, d)), v) {
      WithoutAtPrice(SortByPrice(cs), d, v);
      WithoutAtPrice(cs, d, v);
    }
    SortedDeterminedByPrices(Without(SortByPrice(cs), d), SortByPrice(Without(cs, d)));
  }

  /** The pairs the first pass left to buy. */
  function UnflaggedPairs(cs: seq<Candidate>, flags: seq<bool>): set<string>
    requires |flags| == |cs|
  {
    set i | 0 <= i < |cs| && !flags[i] :: cs[i].market.pair
  }

  lemma UnflaggedPairsExtend(cs: seq<Candidate>, flags: seq<bool>)
    requires |flags| == |cs| > 0
    ensures UnflaggedPairs(cs, flags)
      == UnflaggedPairs(cs[..|cs| - 1], flags[..|flags| - 1])
         + (if flags[|flags| - 1] then {} else {cs[|cs| - 1].market.pair})
  {
    var init, f' := cs[..|cs| - 1], flags[..|flags| - 1];
    forall p | p in UnflaggedPairs(cs, flags)
      ensures p in UnflaggedPairs(init, f') + (if flags[|flags| - 1] then {} else {cs[|cs| - 1].market.pair})
    {
      var k :| 0 <= k < |cs| && !flags[k] && cs[k].market.pair == p;
      if k < |init| {
        assert init[k] == cs[k] && f'[k] == flags[k];
      }
    }
    forall p | p in UnflaggedPairs(init, f') ensures p in UnflaggedPairs(cs, flags) {
      var k :| 0 <= k < |init| && !f'[k] && init[k].market.pair == p;
      assert cs[k] == init[k] && flags[k] == f'[k];
    }
  }

  lemma PairsStep(cs: seq<Candidate>, flags: seq<bool>, i: nat)
    requires |flags| == |cs| && i < |cs|
    ensures FlaggedPairs(cs[..i + 1], flags[..i + 1])
      == FlaggedPairs(cs[..i], flags[..i]) + (if flags[i] then {cs[i].market.pair} else {})
    ensures UnflaggedPairs(cs[..i + 1], flags[..i + 1])
      == UnflaggedPairs(cs[..i], flags[..i]) + (if flags[i] then {} else {cs[i].market.pair})
  {
    var c, f := cs[..i + 1], flags[..i + 1];
    assert c[..|c| - 1] == cs[..i] && f[..|f| - 1] == flags[..i];
    FlaggedPairsExtend(c, f);
    UnflaggedPairsExtend(c, f);
  }

  /** The second loop of buyAll: deletes every flagged pair from the sorted
      book and sizes every other market at the re-sized share. */
  method SecondPass(funds: real, cs: seq<Candidate>, flags: seq<bool>, count: int, book: seq<Candidate>)
    returns (rest: seq<Candidate>, quantities: map<string, Number>)
    requires |flags| == |cs| && PricesNonZero(cs) && UniquePairs(cs) && count != 0
    ensures rest == Without(book, FlaggedPairs(cs, flags))
    ensures quantities.Keys == UnflaggedPairs(cs, flags)
    ensures SizedAt(quantities, cs, flags, |cs|, funds / count as real)
  {
    ghost var share := funds / count as real;
    rest, quantities := book, map[];
    WithoutNothing(book);
    assert FlaggedPairs(cs[..0], flags[..0]) == {};
    assert UnflaggedPairs(cs[..0], flags[..0]) == {};
    for i := 0 to |cs|
      invariant rest == Without(book, FlaggedPairs(cs[..i], flags[..i]))
      invariant quantities.Keys == UnflaggedPairs(cs[..i], flags[..i])
      invariant SizedAt(quantities, cs, flags, i, share)
    {
      PairsStep(cs, flags, i);
      var pair := cs[i].market.pair;
      if flags[i] {
        WithoutTwice(book, FlaggedPairs(cs[..i], flags[..i]), {pair});
        rest := Without(rest, {pair});
        assert rest == Without(book, FlaggedPairs(cs[..i + 1], flags[..i + 1]));
        continue;
      }
      assert FlaggedPairs(cs[..i + 1], flags[..i + 1]) == FlaggedPairs(cs[..i], flags[..i]);
      var fundsPerCoin := funds / count as real;
      SizedAtExtend(quantities, cs, flags, i, share);
      quantities := quantities[pair := QuantityFor(fundsPerCoin, cs[i])];
    }
    assert cs[..|cs|] == cs && flags[..|flags|] == flags;
  }

  /** The first i candidates that were not flagged are sized at share. */
  predicate SizedAt(quantities: map<string, Number>, cs: seq<Candidate>, flags: seq<bool>, i: nat, share: real)
    requires |flags| == |cs| && i <= |cs| && PricesNonZero(cs)
  {
    forall k :: 0 <= k < i && !flags[k] ==>
      cs[k].market.pair in quantities && quantities[cs[k].market.pair] == QuantityFor(share, cs[k])
  }

  lemma SizedAtExtend(quantities: map<string, Number>, cs: seq<Candidate>, flags: seq<bool>, i: nat, share: real)
    requires |flags| == |cs| && i < |cs| && PricesNonZero(cs) && UniquePairs(cs)
    requires SizedAt(quantities, cs, flags, i, share)
    ensures SizedAt(quantities[cs[i].market.pair := QuantityFor(share, cs[i])], cs, flags, i + 1, share)
  {
  }

  /** The request body buyAll posts for one market. */
  function OrderFor(c: Candidate, q: Number): (o: Order)
    ensures o.side == "buy" && o.orderType == "limit_order"
    ensures o.market == MarketSymbol(c.market.pair) && o.pricePerUnit == c.price && o.totalQuantity == q
  {
    Order("buy", "limit_order", MarketSymbol(c.market.pair), c.price, q)
  }

  /** The third loop of buyAll: one order per pair left in the book, in the
      book's order. */
  method Emit(rest: seq<Candidate>, quantities: map<string, Number>) returns (orders: seq<Order>)
    requires forall i :: 0 <= i < |rest| ==> rest[i].market.pair in quantities
    ensures |orders| == |rest|
    ensures forall k :: 0 <= k < |rest| ==> orders[k] == OrderFor(rest[k], quantities[rest[k].market.pair])
  {
    orders := [];
    for i := 0 to |rest|
      invariant |orders| == i
      invariant forall k :: 0 <= k < i ==> orders[k] == OrderFor(rest[k], quantities[rest[k].market.pair])
    {
      var pair := rest[i].market.pair;
      var quantity := quantities[pair];
      orders := orders + [OrderFor(rest[i], quantity)];
    }
  }

  /** A survivor is one of the candidates the first pass did not flag. */
  lemma SurvivorIndex(cs: seq<Candidate>, flags: seq<bool>, c: Candidate) returns (i: nat)
    requires |flags| == |cs| && c in Survivors(cs, flags)
    ensures i < |cs| && cs[i] == c && !flags[i]
  {
    i :| 0 <= i < |cs| && cs[i] == c;
    FlaggedPairIn(cs, flags, i);
  }

  lemma FlaggedPairIn(cs: seq<Candidate>, flags: seq<bool>, i: nat)
    requires |flags| == |cs| && i < |cs|
    ensures flags[i] ==> cs[i].market.pair in FlaggedPairs(cs, flags)
  {
  }

  lemma {:induction false} WithoutNothing(book: seq<Candidate>)
    ensures Without(book, {}) == book
    decreases |book|
  {
    if book != [] {
      var init, c := book[..|book| - 1], book[|book| - 1];
      WithoutNothing(init);
      assert Without(book, {}) == init + [c];
      assert book == init + [c];
    }
  }

  /** The orders for a book at one share each, in the book's order. */
  function Placements(book: seq<Candidate>, share: real): seq<Order>
    requires PricesNonZero(book)
  {
    seq(|book|, k requires 0 <= k < |book| => OrderFor(book[k], QuantityFor(share, book[k])))
  }

  lemma SurvivorsPriced(cs: seq<Candidate>, flags: seq<bool>)
    requires |flags| == |cs| && PricesNonZero(cs)
    ensures PricesNonZero(SortByPrice(Survivors(cs, flags)))
  {
    var placed := SortByPrice(Survivors(cs, flags));
    SortByPriceCorrect(Survivors(cs, flags));
    forall k | 0 <= k < |placed| ensures placed[k].price != 0.0 {
      assert placed[k] in multiset(Survivors(cs, flags));
      var i := SurvivorIndex(cs, flags, placed[k]);
    }
  }

  /** The no_buy flags the first pass leaves on the candidates. */
  function NoBuy(funds: real, cs: seq<Candidate>): (flags: seq<bool>)
    requires PricesNonZero(cs)
    ensures |flags| == |cs|
  {
    FirstPassFlags(funds, cs, |cs|)
  }

  /** number_of_coins_to_buy after the first pass. */
  function Remaining(funds: real, cs: seq<Candidate>): int
    requires PricesNonZero(cs)
  {
    |cs| - CountTrue(NoBuy(funds, cs))
  }

  /** What a buy-all run over the candidates cs with these funds does once
      its candidates are known: a zero reference bid raises in the first
      pass; otherwise, when every market is flagged, the re-sized share
      divides by zero; otherwise one order for every unflagged market, at
      funds over their number, cheapest first with ties in catalog order. */
  function Plan(funds: real, cs: seq<Candidate>): Result<seq<Order>, Crash> {
    if !PricesNonZero(cs) then Failure(ZeroBidPrice)
    else if Remaining(funds, cs) == 0 then Failure(NoMarketLeft)
    else
      SurvivorsPriced(cs, NoBuy(funds, cs));
      Success(Placements(SortByPrice(Survivors(cs, NoBuy(funds, cs))), funds / Remaining(funds, cs) as real))
  }

  /** The sizing and ordering part of buyAll, from the seeded candidates to
      the order bodies it posts. */
  method PlanOrders(funds: real, cs: seq<Candidate>) returns (r: Result<seq<Order>, Crash>)
    requires UniquePairs(cs)
    ensures r == Plan(funds, cs)
  {
    var book := SortByPrice(cs);
    var first := FirstPass(funds, cs);
    if first.Failure? {
      return Failure(first.error);
    }
    var flags, count := first.value.0, first.value.1;
    assert flags == FirstPassFlags(funds, cs, |cs|) && count == |cs| - CountTrue(flags);
    if count == 0 {
      return Failure(NoMarketLeft);
    }
    var rest, quantities := SecondPass(funds, cs, flags, count, book);
    SortThenDrop(cs, FlaggedPairs(cs, flags));
    PlacedQuantities(funds, cs, flags, count, quantities);
    var orders := Emit(rest, quantities);
    PlanPlaces(funds, cs, orders);
    return Success(orders);
  }

  /** The orders of a run that gets past both passes. */
  lemma PlanPlaces(funds: real, cs: seq<Candidate>, orders: seq<Order>)
    requires PricesNonZero(cs) && Remaining(funds, cs) != 0
    requires var flags := NoBuy(funds, cs);
      var count := Remaining(funds, cs);
      var placed := SortByPrice(Survivors(cs, flags));
      PricesNonZero(placed) && |orders| == |placed|
      && forall k :: 0 <= k < |placed| ==> orders[k] == OrderFor(placed[k], QuantityFor(funds / count as real, placed[k]))
    ensures Plan(funds, cs) == Success(orders)
  {
    var placed := SortByPrice(Survivors(cs, NoBuy(funds, cs)));
    assert orders == Placements(placed, funds / Remaining(funds, cs) as real);
  }

  /** Every market left in the sorted book has the quantity the second pass
      computed for it. */
  lemma PlacedQuantities(funds: real, cs: seq<Candidate>, flags: seq<bool>, count: int, quantities: map<string, Number>)
    requires |flags| == |cs| && PricesNonZero(cs) && count != 0
    requires quantities.Keys == UnflaggedPairs(cs, flags)
    requires SizedAt(quantities, cs, flags, |cs|, funds / count as real)
    ensures var placed := SortByPrice(Survivors(cs, flags));
      forall k :: 0 <= k < |placed| ==>
        placed[k].market.pair in quantities && placed[k].price != 0.0
        && quantities[placed[k].market.pair] == QuantityFor(funds / count as real, placed[k])
  {
    var placed := SortByPrice(Survivors(cs, flags));
    SortByPriceCorrect(Survivors(cs, flags));
    forall k | 0 <= k < |placed|
      ensures placed[k].market.pair in quantities && placed[k].price != 0.0
      ensures quantities[placed[k].market.pair] == QuantityFor(funds / count as real, placed[k])
    {
      assert placed[k] in multiset(Survivors(cs, flags));
      var i := SurvivorIndex(cs, flags, placed[k]);
    }
  }

  lemma {:induction false} CountTrueAll(flags: seq<bool>)
    ensures CountTrue(flags) == |flags| <==> forall i :: 0 <= i < |flags| ==> flags[i]
    decreases |flags|
  {
    if flags != [] {
      var init := flags[..|flags| - 1];
      CountTrueAll(init);
      CountTrueBound(init);
      assert forall i :: 0 <= i < |init| ==> init[i] == flags[i];
    }
  }

  /** A successful plan is the list of placements over the sorted survivors,
      at funds over the markets left. */
  lemma PlanValue(funds: real, cs: seq<Candidate>)
    requires Plan(funds, cs).Success?
    ensures PricesNonZero(cs) && Remaining(funds, cs) > 0
    ensures PricesNonZero(SortByPrice(Survivors(cs, NoBuy(funds, cs))))
    ensures Plan(funds, cs).value
      == Placements(SortByPrice(Survivors(cs, NoBuy(funds, cs))), funds / Remaining(funds, cs) as real)
  {
    SurvivorsPriced(cs, NoBuy(funds, cs));
    CountTrueBound(NoBuy(funds, cs));
  }

  /** A successful run places one order per market the first pass kept and
      no other, every one at the same re-sized share, in ascending price
      order. */
  lemma PlanPlacesSurvivors(funds: real, cs: seq<Candidate>, orders: seq<Order>)
    requires UniquePairs(cs) && Plan(funds, cs) == Success(orders)
    ensures PricesNonZero(cs) && Remaining(funds, cs) > 0
    ensures |orders| == Remaining(funds, cs)
    ensures forall i, j :: 0 <= i < j < |orders| ==> orders[i].pricePerUnit <= orders[j].pricePerUnit
    ensures var share := funds / Remaining(funds, cs) as real;
      forall i :: 0 <= i < |cs| && !NoBuy(funds, cs)[i] ==> OrderFor(cs[i], QuantityFor(share, cs[i])) in orders
    ensures var share := funds / Remaining(funds, cs) as real;
      forall k :: 0 <= k < |orders| ==>
        exists i :: 0 <= i < |cs| && !NoBuy(funds, cs)[i] && orders[k] == OrderFor(cs[i], QuantityFor(share, cs[i]))
  {
    PlanValue(funds, cs);
    var flags := NoBuy(funds, cs);
    var share := funds / Remaining(funds, cs) as real;
    assert orders == Placements(SortByPrice(Survivors(cs, flags)), share);
    PlacementsShape(cs, flags, share);
    PlacementsMembers(cs, flags, share);
  }

  /** Every order placed is the order for one of the candidates. */
  lemma PlacedAreCandidates(funds: real, cs: seq<Candidate>, orders: seq<Order>)
    requires UniquePairs(cs) && Plan(funds, cs) == Success(orders)
    ensures forall o :: o in orders ==> exists i :: 0 <= i < |cs| && o == OrderFor(cs[i], o.totalQuantity)
  {
    PlanPlacesSurvivors(funds, cs, orders);
    var share := funds / Remaining(funds, cs) as real;
    forall o | o in orders ensures exists i :: 0 <= i < |cs| && o == OrderFor(cs[i], o.totalQuantity) {
      var k :| 0 <= k < |orders| && orders[k] == o;
      var i :| 0 <= i < |cs| && !NoBuy(funds, cs)[i] && o == OrderFor(cs[i], QuantityFor(share, cs[i]));
    }
  }

  lemma PlacementsShape(cs: seq<Candidate>, flags: seq<bool>, share: real)
    requires |flags| == |cs| && PricesNonZero(cs) && UniquePairs(cs)
    ensures PricesNonZero(SortByPrice(Survivors(cs, flags)))
    ensures var orders := Placements(SortByPrice(Survivors(cs, flags)), share);
      && |orders| == |cs| - CountTrue(flags)
      && forall i, j :: 0 <= i < j < |orders| ==> orders[i].pricePerUnit <= orders[j].pricePerUnit
  {
    var survivors := Survivors(cs, flags);
    SurvivorsPriced(cs, flags);
    SortByPriceCorrect(survivors);
    SurvivorsAreKept(cs, flags);
    assert |SortByPrice(survivors)| == |multiset(SortByPrice(survivors))| == |survivors|;
  }

  lemma PlacementsMembers(cs: seq<Candidate>, flags: seq<bool>, share: real)
    requires |flags| == |cs| && PricesNonZero(cs) && UniquePairs(cs)
    ensures PricesNonZero(SortByPrice(Survivors(cs, flags)))
    ensures var orders := Placements(SortByPrice(Survivors(cs, flags)), share);
      && (forall i :: 0 <= i < |cs| && !flags[i] ==> OrderFor(cs[i], QuantityFor(share, cs[i])) in orders)
      && (forall k :: 0 <= k < |orders| ==>
            exists i :: 0 <= i < |cs| && !flags[i] && orders[k] == OrderFor(cs[i], QuantityFor(share, cs[i])))
  {
    var survivors := Survivors(cs, flags);
    var placed := SortByPrice(survivors);
    SurvivorsPriced(cs, flags);
    var orders := Placements(placed, share);
    SortByPriceCorrect(survivors);
    SurvivorsAreUnflagged(cs, flags);
    forall i | 0 <= i < |cs| && !flags[i] ensures OrderFor(cs[i], QuantityFor(share, cs[i])) in orders {
      assert cs[i] in multiset(placed);
      var k :| 0 <= k < |placed| && placed[k] == cs[i];
      assert orders[k] == OrderFor(cs[i], QuantityFor(share, cs[i]));
    }
    forall k | 0 <= k < |orders|
      ensures exists i :: 0 <= i < |cs| && !flags[i] && orders[k] == OrderFor(cs[i], QuantityFor(share, cs[i]))
    {
      assert placed[k] in multiset(survivors);
      var i := SurvivorIndex(cs, flags, placed[k]);
      assert orders[k] == OrderFor(cs[i], QuantityFor(share, cs[i]));
    }
  }

  lemma ShareMonotone(funds: real, a: int, b: int)
    requires funds >= 0.0 && 0 < a <= b
    ensures funds / b as real <= funds / a as real
  {
    assert funds / b as real * b as real == funds == funds / a as real * a as real;
  }

  lemma PerUnitMonotone(x: real, y: real, price: real)
    requires x <= y && price > 0.0
    ensures x / price <= y / price
  {
    assert x / price * price == x && y / price * price == y;
  }

  /** The re-sizing pass never sizes a kept market below what the first pass
      gave it, so with funds and positive prices no order has a zero
      quantity: every kept market saw a count at least the final one. */
  lemma ResizedAtLeastFirstPass(funds: real, cs: seq<Candidate>, i: nat)
    requires funds >= 0.0 && PricesPositive(cs) && i < |cs| && !NoBuy(funds, cs)[i]
    ensures Remaining(funds, cs) >= 1
    ensures var d := |cs| - CountTrue(NoBuy(funds, cs)[..i]);
      d >= Remaining(funds, cs)
      && QuantityFor(funds / d as real, cs[i]).Value() <= QuantityFor(funds / Remaining(funds, cs) as real, cs[i]).Value()
    ensures QuantityFor(funds / Remaining(funds, cs) as real, cs[i]).Value() > 0.0
  {
    var d := |cs| - CountTrue(NoBuy(funds, cs)[..i]);
    KeptCounts(funds, cs, i);
    var n := Remaining(funds, cs);
    ShareMonotone(funds, n, d);
    LargerShareNotZero(funds / d as real, funds / n as real, cs[i]);
  }

  /** A market the first pass keeps saw a count no smaller than the number
      of markets left at the end, which is at least 1, and its quantity at
      that count did not round to zero. */
  lemma KeptCounts(funds: real, cs: seq<Candidate>, i: nat)
    requires PricesNonZero(cs) && i < |cs| && !NoBuy(funds, cs)[i]
    ensures var d := |cs| - CountTrue(NoBuy(funds, cs)[..i]);
      1 <= Remaining(funds, cs) <= d && !RoundsToZero(funds / d as real, cs[i])
  {
    var flags := NoBuy(funds, cs);
    FirstPassMeaning(funds, cs, |cs|, i);
    CountTrueAll(flags);
    CountTrueBound(flags);
    CountTruePrefix(flags, i);
  }

  /** A share that buys a non-zero quantity, and any larger share, buys at
      least as much, and a positive amount. */
  lemma LargerShareNotZero(s1: real, s2: real, c: Candidate)
    requires 0.0 <= s1 <= s2 && c.price > 0.0 && !RoundsToZero(s1, c)
    ensures QuantityFor(s1, c).Value() <= QuantityFor(s2, c).Value()
    ensures QuantityFor(s2, c).Value() > 0.0
  {
    PerUnitMonotone(s1, s2, c.price);
    RoundToMonotone(s1 / c.price, s2 / c.price, c.market.precision);
    QuantityZeroExactly(s1, c);
    assert s1 / c.price >= 0.0;
    RoundToZero(s1 / c.price, c.market.precision);
  }

  /** With funds and positive prices, every order a run places buys a
      positive quantity. */
  lemma PlanQuantitiesPositive(funds: real, cs: seq<Candidate>)
    requires funds >= 0.0 && PricesPositive(cs) && UniquePairs(cs) && Plan(funds, cs).Success?
    ensures forall k :: 0 <= k < |Plan(funds, cs).value| ==> Plan(funds, cs).value[k].totalQuantity.Value() > 0.0
  {
    var orders := Plan(funds, cs).value;
    PlanPlacesSurvivors(funds, cs, orders);
    var share := funds / Remaining(funds, cs) as real;
    forall k | 0 <= k < |orders| ensures orders[k].totalQuantity.Value() > 0.0 {
      var i :| 0 <= i < |cs| && !NoBuy(funds, cs)[i] && orders[k] == OrderFor(cs[i], QuantityFor(share, cs[i]));
      ResizedAtLeastFirstPass(funds, cs, i);
    }
  }

  /** The run divides by zero at the re-sized share exactly when every
      candidate was flagged, including when there is no candidate at all. */
  lemma NoMarketLeftExactly(funds: real, cs: seq<Candidate>)
    ensures Plan(funds, cs) == Failure(NoMarketLeft)
      <==> PricesNonZero(cs) && forall i :: 0 <= i < |cs| ==> NoBuy(funds, cs)[i]
  {
    if PricesNonZero(cs) {
      CountTrueAll(NoBuy(funds, cs));
    }
  }

  lemma ZeroShareRoundsToZero(share: real, c: Candidate)
    requires share == 0.0 && c.price != 0.0
    ensures RoundsToZero(share, c)
  {
    assert share / c.price == 0.0;
    ScaleZero(c.market.precision);
  }

  /** With no INR funds every quantity rounds to zero, so a run with any
      priced candidates, or none, always ends in the division by zero. */
  lemma ZeroFundsLeaveNoMarket(cs: seq<Candidate>)
    requires PricesNonZero(cs)
    ensures Plan(0.0, cs) == Failure(NoMarketLeft)
  {
    forall i | 0 <= i < |cs| ensures NoBuy(0.0, cs)[i] {
      FirstPassMeaning(0.0, cs, |cs|, i);
      ZeroShareRoundsToZero(0.0 / (|cs| - CountTrue(NoBuy(0.0, cs)[..i])) as real, cs[i]);
    }
    NoMarketLeftExactly(0.0, cs);
  }

  /** The funds_per_coin the first pass computes for candidate i. */
  function FirstPassShare(funds: real, cs: seq<Candidate>, i: nat): real
    requires PricesNonZero(cs) && i < |cs|
  {
    FirstPassMeaning(funds, cs, |cs|, i);
    funds / (|cs| - CountTrue(NoBuy(funds, cs)[..i])) as real
  }

  /** Because the first pass lowers its count as it goes, the shares it
      hands out can add up to more than the funds: with 100 INR, a market
      priced 300 is dropped at a share of 50 and the next market then sees
      all 100. */
  lemma FirstPassOvercommits()
    ensures var a := Candidate(Market("I-A_INR", Inr, 0), 300.0);
      var b := Candidate(Market("I-B_INR", Inr, 0), 1.0);
      && NoBuy(100.0, [a, b]) == [true, false]
      && FirstPassShare(100.0, [a, b], 0) + FirstPassShare(100.0, [a, b], 1) == 150.0
      && Plan(100.0, [a, b]) == Success([OrderFor(b, Int(100))])
  {
    var a := Candidate(Market("I-A_INR", Inr, 0), 300.0);
    var b := Candidate(Market("I-B_INR", Inr, 0), 1.0);
    OvercommitFlags(a, b);
    OvercommitShares(a, b);
    OvercommitPlan(a, b);
  }

  lemma OvercommitShares(a: Candidate, b: Candidate)
    requires a.price != 0.0 && b.price != 0.0
    requires NoBuy(100.0, [a, b]) == [true, false]
    ensures FirstPassShare(100.0, [a, b], 0) == 50.0
    ensures FirstPassShare(100.0, [a, b], 1) == 100.0
  {
    assert [true, false][..0] == [] && [true, false][..1] == [true];
  }

  lemma OvercommitFlags(a: Candidate, b: Candidate)
    requires a == Candidate(Market("I-A_INR", Inr, 0), 300.0)
    requires b == Candidate(Market("I-B_INR", Inr, 0), 1.0)
    ensures NoBuy(100.0, [a, b]) == [true, false]
  {
    var cs := [a, b];
    assert cs[..1] == [a];
    RoundToWhole(50.0 / 300.0, 0);
    assert FirstPassFlags(100.0, [a], 2) == [true];
    RoundToWhole(100.0 / 1.0, 100);
  }

  lemma OvercommitPlan(a: Candidate, b: Candidate)
    requires a == Candidate(Market("I-A_INR", Inr, 0), 300.0)
    requires b == Candidate(Market("I-B_INR", Inr, 0), 1.0)
    requires NoBuy(100.0, [a, b]) == [true, false]
    ensures Plan(100.0, [a, b]) == Success([OrderFor(b, Int(100))])
  {
    var flags := [true, false];
    assert CountTrue(flags) == 1 by {
      assert flags[..1] == [true] && [true][..0] == [];
    }
    OvercommitSurvivors(a, b);
    assert SortByPrice([b]) == [b] by {
      assert [b][..0] == [];
    }
    assert QuantityFor(100.0, b) == Int(100) by {
      RoundToWhole(100.0 / 1.0, 100);
    }
    assert Placements([b], 100.0 / 1 as real) == [OrderFor(b, Int(100))];
  }

  lemma OvercommitSurvivors(a: Candidate, b: Candidate)
    requires a == Candidate(Market("I-A_INR", Inr, 0), 300.0)
    requires b == Candidate(Market("I-B_INR", Inr, 0), 1.0)
    ensures Survivors([a, b], [true, false]) == [b]
  {
    var cs := [a, b];
    SurvivorsAreKept(cs, [true, false]);
    assert Kept(cs, [true, false]) == [b] by {
      assert cs[..1] == [a] && [a][..0] == [];
    }
  }

  /** The re-sized share can make a dropped market affordable again, and
      the run does not look back: with 90 INR, two markets priced 100 are
      dropped at shares of 30 and 45, the market priced 1 takes all 90, and
      at 90 a market priced 100 would have been sized 1. */
  lemma ResizingIsNotRevisited()
    ensures var a := Candidate(Market("I-A_INR", Inr, 0), 100.0);
      var b := Candidate(Market("I-B_INR", Inr, 0), 100.0);
      var c := Candidate(Market("I-C_INR", Inr, 0), 1.0);
      && NoBuy(90.0, [a, b, c]) == [true, true, false]
      && Plan(90.0, [a, b, c]) == Success([OrderFor(c, Int(90))])
      && QuantityFor(90.0, a) == Int(1)
  {
    var a := Candidate(Market("I-A_INR", Inr, 0), 100.0);
    var b := Candidate(Market("I-B_INR", Inr, 0), 100.0);
    var c := Candidate(Market("I-C_INR", Inr, 0), 1.0);
    NotRevisitedFlags(a, b, c);
    NotRevisitedPlan(a, b, c);
    RoundToWhole(90.0 / 100.0, 1);
  }

  lemma NotRevisitedFlags(a: Candidate, b: Candidate, c: Candidate)
    requires a == Candidate(Market("I-A_INR", Inr, 0), 100.0)
    requires b == Candidate(Market("I-B_INR", Inr, 0), 100.0)
    requires c == Candidate(Market("I-C_INR", Inr, 0), 1.0)
    ensures NoBuy(90.0, [a, b, c]) == [true, true, false]
  {
    var cs := [a, b, c];
    assert cs[..2] == [a, b] && [a, b][..1] == [a];
    RoundToWhole(30.0 / 100.0, 0);
    assert FirstPassFlags(90.0, [a], 3) == [true];
    RoundToWhole(45.0 / 100.0, 0);
    assert FirstPassFlags(90.0, [a, b], 3) == [true, true];
    RoundToWhole(90.0 / 1.0, 90);
  }

  lemma NotRevisitedPlan(a: Candidate, b: Candidate, c: Candidate)
    requires a == Candidate(Market("I-A_INR", Inr, 0), 100.0)
    requires b == Candidate(Market("I-B_INR", Inr, 0), 100.0)
    requires c == Candidate(Market("I-C_INR", Inr, 0), 1.0)
    requires NoBuy(90.0, [a, b, c]) == [true, true, false]
    ensures Plan(90.0, [a, b, c]) == Success([OrderFor(c, Int(90))])
  {
    var cs := [a, b, c];
    var flags := [true, true, false];
    assert CountTrue(flags) == 2 by {
      assert flags[..2] == [true, true] && [true, true][..1] == [true] && [true][..0] == [];
    }
    NotRevisitedSurvivors(a, b, c);
    assert SortByPrice([c]) == [c] by {
      assert [c][..0] == [];
    }
    assert QuantityFor(90.0, c) == Int(90) by {
      RoundToWhole(90.0 / 1.0, 90);
    }
    assert Placements([c], 90.0 / 1 as real) == [OrderFor(c, Int(90))];
  }

  lemma NotRevisitedSurvivors(a: Candidate, b: Candidate, c: Candidate)
    requires a == Candidate(Market("I-A_INR", Inr, 0), 100.0)
    requires b == Candidate(Market("I-B_INR", Inr, 0), 100.0)
    requires c == Candidate(Market("I-C_INR", Inr, 0), 1.0)
    ensures Survivors([a, b, c], [true, true, false]) == [c]
  {
    var cs := [a, b, c];
    SurvivorsAreKept(cs, [true, true, false]);
    assert Kept(cs, [true, true, false]) == [c] by {
      assert cs[..2] == [a, b] && [a, b][..1] == [a] && [a][..0] == [];
    }
  }
}
