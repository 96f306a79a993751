/** The order in which the buy-all run places its orders: its candidates
    sorted by reference price, ascending, with Python's stable `sorted`, so
    that markets of equal price keep catalog order. */
module PriceOrder {
  import opened OrderBook

  predicate SortedByPrice(cs: seq<Candidate>) {
    forall i, j :: 0 <= i < j < |cs| ==> cs[i].price <= cs[j].price
  }

  /** The candidates of cs priced at v, in the order of cs. */
  function AtPrice(cs: seq<Candidate>, v: real): seq<Candidate> {
    if cs == [] then []
    else AtPrice(cs[..|cs| - 1], v) + (if cs[|cs| - 1].price == v then [cs[|cs| - 1]] else [])
  }

  /** Inserts c into a sorted list after every entry whose price is at most
      c's. */
  function InsertByPrice(s: seq<Candidate>, c: Candidate): seq<Candidate> {
    if s == [] || s[|s| - 1].price <= c.price then s + [c]
    else InsertByPrice(s[..|s| - 1], c) + [s[|s| - 1]]
  }

  /** Python's `sorted(..., key=price)`. */
  function SortByPrice(cs: seq<Candidate>): seq<Candidate> {
    if cs == [] then []
    else InsertByPrice(SortByPrice(cs[..|cs| - 1]), cs[|cs| - 1])
  }

  lemma {:induction false} AtPriceAppend(a: seq<Candidate>, b: seq<Candidate>, v: real)
    ensures AtPrice(a + b, v) == AtPrice(a, v) + AtPrice(b, v)
    decreases |b|
  {
    if b == [] {
      assert a + b == a;
    } else {
      var b', y := b[..|b| - 1], b[|b| - 1];
      assert (a + b)[..|a + b| - 1] == a + b';
      AtPriceAppend(a, b', v);
    }
  }

  lemma {:induction false} InsertByPriceFacts(s: seq<Candidate>, c: Candidate)
    requires SortedByPrice(s)
    ensures SortedByPrice(InsertByPrice(s, c))
    ensures multiset(InsertByPrice(s, c)) == multiset(s) + multiset{c}
    decreases |s|
  {
    var r := InsertByPrice(s, c);
    if s != [] && s[|s| - 1].price > c.price {
      var s', y := s[..|s| - 1], s[|s| - 1];
      assert s == s' + [y];
      InsertByPriceFacts(s', c);
      var t := InsertByPrice(s', c);
      assert r == t + [y];
      forall i, j | 0 <= i < j < |r| ensures r[i].price <= r[j].price {
        if j == |r| - 1 {
          assert r[i] in multiset(t);
        }
      }
    }
  }

  lemma {:induction false} InsertByPriceAtPrice(s: seq<Candidate>, c: Candidate, v: real)
    ensures AtPrice(InsertByPrice(s, c), v) == AtPrice(s, v) + AtPrice([c], v)
    decreases |s|
  {
    if s == [] || s[|s| - 1].price <= c.price {
      AtPriceAppend(s, [c], v);
    } else {
      var s', y := s[..|s| - 1], s[|s| - 1];
      assert s == s' + [y];
      InsertByPriceAtPrice(s', c, v);
      var t := InsertByPrice(s', c);
      AtPriceAppend(t, [y], v);
      AtPriceAppend(s', [y], v);
      AtPriceAppend(s', [c], v);
      assert AtPrice([c], v) == [] || AtPrice([y], v) == [];
    }
  }

  /** The sort returns the candidates, sorted by price, and among candidates
      of one price keeps the input order: it is stable. */
  lemma {:induction false} SortByPriceCorrect(cs: seq<Candidate>)
    ensures SortedByPrice(SortByPrice(cs))
    ensures multiset(SortByPrice(cs)) == multiset(cs)
    ensures forall v :: AtPrice(SortByPrice(cs), v) == AtPrice(cs, v)
  {
    if cs != [] {
      var init, c := cs[..|cs| - 1], cs[|cs| - 1];
      assert cs == init + [c];
      SortByPriceCorrect(init);
      InsertByPriceFacts(SortByPrice(init), c);
      forall v ensures AtPrice(SortByPrice(cs), v) == AtPrice(cs, v) {
        InsertByPriceAtPrice(SortByPrice(init), c, v);
        AtPriceAppend(init, [c], v);
      }
    }
  }

  /** A sorted list is determined by what it holds at each price: two lists
      sorted by price that agree at every price are equal. So the stable
      sort's result is the only one with its two properties. */
  lemma {:induction false} SortedDeterminedByPrices(a: seq<Candidate>, b: seq<Candidate>)
    requires SortedByPrice(a) && SortedByPrice(b)
    requires forall v :: AtPrice(a, v) == AtPrice(b, v)
    ensures a == b
    decreases |a| + |b|
  {
    AtPriceOfLast(a);
    AtPriceOfLast(b);
    if a != [] && b != [] {
      var x, y := a[|a| - 1], b[|b| - 1];
      var a', b' := a[..|a| - 1], b[..|b| - 1];
      // the last entry of each list is at the highest price of that list
      assert x.price == y.price;
      var top := AtPrice(a, x.price);
      assert top[|top| - 1] == x;
      assert x == y;
      forall v ensures AtPrice(a', v) == AtPrice(b', v) {
        var tail := if x.price == v then [x] else [];
        var whole := AtPrice(a, v);
        assert whole == AtPrice(a', v) + tail;
        assert whole == AtPrice(b', v) + tail;
        assert AtPrice(a', v) == whole[..|whole| - |tail|];
        assert AtPrice(b', v) == whole[..|whole| - |tail|];
      }
      assert SortedByPrice(a') && SortedByPrice(b');
      SortedDeterminedByPrices(a', b');
      assert a == a' + [x] && b == b' + [y];
    }
  }

  /** The last entry of a sorted list is found at its own price, and nothing
      is found above it. */
  lemma AtPriceOfLast(s: seq<Candidate>)
    requires SortedByPrice(s)
    ensures s != [] ==> AtPrice(s, s[|s| - 1].price) == AtPrice(s[..|s| - 1], s[|s| - 1].price) + [s[|s| - 1]]
    ensures s != [] ==> forall v :: v > s[|s| - 1].price ==> AtPrice(s, v) == []
  {
    if s != [] {
      var s', top := s[..|s| - 1], s[|s| - 1].price;
      forall v | v > top ensures AtPrice(s, v) == [] {
        AtPriceAboveMax(s', v);
      }
    }
  }

  lemma {:induction false} AtPriceAboveMax(s: seq<Candidate>, v: real)
    requires forall i :: 0 <= i < |s| ==> s[i].price < v
    ensures AtPrice(s, v) == []
  {
    if s != [] {
      AtPriceAboveMax(s[..|s| - 1], v);
    }
  }
}
