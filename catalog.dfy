/** The exchange's market catalog as the client sees it: the records of
    markets_details, of which the client keeps the INR markets. */
module Catalog {
  import opened Seqs

  /** One catalog record: `pair` (such as "I-BTC_INR"), the
      `base_currency_short_name` and the `target_currency_precision`, the
      number of decimal places an order quantity may have. The other fields
      of the record play no part in the client's decisions. */
  datatype Market = Market(pair: string, baseCurrency: string, precision: nat)

  const Inr: string := "INR"

  /** The positions of the INR records in the catalog. */
  ghost function InrPositions(data: seq<Market>): set<int> {
    set i | 0 <= i < |data| && data[i].baseCurrency == Inr
  }

  /** One more record adds its position exactly when it is an INR record. */
  lemma InrPositionsSnoc(init: seq<Market>, last: Market)
    ensures InrPositions(init + [last])
         == InrPositions(init) + (if last.baseCurrency == Inr then {|init|} else {})
  {
    var data := init + [last];
    forall i | i in InrPositions(data)
      ensures i in InrPositions(init) + (if last.baseCurrency == Inr then {|init|} else {})
    {
      if i < |init| { assert data[i] == init[i]; }
    }
    forall i | i in InrPositions(init)
      ensures i in InrPositions(data)
    {
      assert data[i] == init[i];
    }
  }

  /** The records whose base currency is INR, in catalog order, one for
      each INR record. */
  function InrMarkets(data: seq<Market>): (r: seq<Market>)
    ensures |r| <= |data|
    ensures |r| == |InrPositions(data)|
    ensures forall m :: m in r ==> m in data && m.baseCurrency == Inr
    ensures forall m :: m in data && m.baseCurrency == Inr ==> m in r
    ensures SubsequenceOf(r, data)
  {
    if data == [] then []
    else
      var init, last := data[..|data| - 1], data[|data| - 1];
      assert data == init + [last];
      var r := InrMarkets(init);
      InrPositionsSnoc(init, last);
      assert |init| !in InrPositions(init);
      if last.baseCurrency == Inr then
        SubsequenceAppend(r, init, last);
        r + [last]
      else
        SubsequenceExtend(r, init, last);
        r
  }

  /** No two records name the same pair (the client keys its working maps by
      pair). */
  predicate DistinctPairs(ms: seq<Market>) {
    forall i, j :: 0 <= i < j < |ms| ==> ms[i].pair != ms[j].pair
  }

  /** Selecting records in order keeps their pairs distinct. */
  lemma {:induction false} DistinctPairsSubsequence(a: seq<Market>, b: seq<Market>)
    requires SubsequenceOf(a, b) && DistinctPairs(b)
    ensures DistinctPairs(a)
    decreases |b|
  {
    if a != [] {
      var b' := b[..|b| - 1];
      assert DistinctPairs(b');
      if a[|a| - 1] == b[|b| - 1] {
        DistinctPairsSubsequence(a[..|a| - 1], b');
        SubsequenceMembers(a[..|a| - 1], b');
        forall i | 0 <= i < |a| - 1
          ensures a[i].pair != a[|a| - 1].pair
        {
          assert a[..|a| - 1][i] in b';
        }
      } else {
        DistinctPairsSubsequence(a, b');
      }
    }
  }

  lemma {:induction false} SubsequenceMembers(a: seq<Market>, b: seq<Market>)
    requires SubsequenceOf(a, b)
    ensures forall m :: m in a ==> m in b
    decreases |b|
  {
    if a != [] {
      var b' := b[..|b| - 1];
      if a[|a| - 1] == b[|b| - 1] {
        SubsequenceMembers(a[..|a| - 1], b');
        assert a == a[..|a| - 1] + [a[|a| - 1]];
      } else {
        SubsequenceMembers(a, b');
      }
    }
  }
}
