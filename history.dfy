/** CoinDCX.getTradeHistory with processed output: the amount spent on each
    symbol and in total, over the rows of the account's trade history. */
module History {
  import opened Wrappers

  /** One row of orders/trade_history. */
  datatype TradeRow = TradeRow(symbol: string, side: string, quantity: real, price: real, fee: real)

  /** What a row adds to the spending: quantity times price plus the fee for
      a buy; nothing for a sell. */
  function Cost(r: TradeRow): real {
    if r.side == "buy" then r.quantity * r.price + r.fee else 0.0
  }

  /** The processed history: every symbol that occurs, with its spending. */
  function Spent(rows: seq<TradeRow>): map<string, real> {
    if rows == [] then map[]
    else
      var m, r := Spent(rows[..|rows| - 1]), rows[|rows| - 1];
      var before := if r.symbol in m then m[r.symbol] else 0.0;
      m[r.symbol := before + Cost(r)]
  }

  /** total_invested. */
  function TotalSpent(rows: seq<TradeRow>): real {
    if rows == [] then 0.0 else TotalSpent(rows[..|rows| - 1]) + Cost(rows[|rows| - 1])
  }

  /** The spending on one symbol, row by row. */
  function SpentOn(rows: seq<TradeRow>, symbol: string): real {
    if rows == [] then 0.0
    else SpentOn(rows[..|rows| - 1], symbol) + (if rows[|rows| - 1].symbol == symbol then Cost(rows[|rows| - 1]) else 0.0)
  }

  /** The symbols in order of first appearance: the key order of the
      processed dict. */
  function Symbols(rows: seq<TradeRow>): seq<string> {
    if rows == [] then []
    else
      var s := Symbols(rows[..|rows| - 1]);
      if rows[|rows| - 1].symbol in s then s else s + [rows[|rows| - 1].symbol]
  }

  /** getTradeHistory(processed=True): None when the fetch failed,
      otherwise the per-symbol spending, with the running total beside it. */
  method TradeHistory(data: Option<seq<TradeRow>>) returns (r: Option<map<string, real>>, totalInvested: real)
    ensures data.None? ==> r.None? && totalInvested == 0.0
    ensures data.Some? ==> r == Some(Spent(data.value)) && totalInvested == TotalSpent(data.value)
  {
    if data.None? {
      return None, 0.0;
    }
    var rows := data.value;
    var myHistData: map<string, real> := map[];
    totalInvested := 0.0;
    for i := 0 to |rows|
      invariant myHistData == Spent(rows[..i])
      invariant totalInvested == TotalSpent(rows[..i])
    {
      var row := rows[i];
      ghost var m0 := myHistData;
      ghost var before := if row.symbol in m0 then m0[row.symbol] else 0.0;
      SpentStep(rows, i);
      if row.symbol !in myHistData {
        myHistData := myHistData[row.symbol := 0.0];
      }
      if row.side == "buy" {
        var amtSpent := row.quantity * row.price + row.fee;
        myHistData := myHistData[row.symbol := myHistData[row.symbol] + amtSpent];
        totalInvested := totalInvested + amtSpent;
        assert amtSpent == Cost(row);
        if row.symbol !in m0 {
          UpdateTwice(m0, row.symbol, 0.0, before + Cost(row));
        }
      } else {
        assert Cost(row) == 0.0;
        if row.symbol in m0 {
          UpdateSame(m0, row.symbol);
        }
      }
      assert myHistData == m0[row.symbol := before + Cost(row)];
    }
    assert rows[..|rows|] == rows;
    return Some(myHistData), totalInvested;
  }

  /** One more row updates its own symbol's amount and the total. */
  lemma SpentStep(rows: seq<TradeRow>, i: nat)
    requires i < |rows|
    ensures var m, r := Spent(rows[..i]), rows[i];
      Spent(rows[..i + 1]) == m[r.symbol := (if r.symbol in m then m[r.symbol] else 0.0) + Cost(r)]
    ensures TotalSpent(rows[..i + 1]) == TotalSpent(rows[..i]) + Cost(rows[i])
  {
    assert rows[..i + 1][..i] == rows[..i];
  }

  lemma UpdateTwice(m: map<string, real>, k: string, a: real, b: real)
    ensures m[k := a][k := b] == m[k := b]
  {
  }

  lemma UpdateSame(m: map<string, real>, k: string)
    requires k in m
    ensures m[k := m[k]] == m
  {
  }

  /** Every symbol of the history is a key, sells included, and each key's
      amount is the spending on that symbol. */
  lemma {:induction false} SpentPerSymbol(rows: seq<TradeRow>)
    ensures forall s :: s in Spent(rows) <==> s in Symbols(rows)
    ensures forall s :: s in Spent(rows) ==> Spent(rows)[s] == SpentOn(rows, s)
    decreases |rows|
  {
    if rows != [] {
      var init := rows[..|rows| - 1];
      SpentPerSymbol(init);
      if rows[|rows| - 1].symbol !in Symbols(init) {
        SpentOnAbsent(init, rows[|rows| - 1].symbol);
      }
    }
  }

  predicate Distinct(s: seq<string>) {
    forall i, j :: 0 <= i < j < |s| ==> s[i] != s[j]
  }

  /** The symbols are exactly those of the rows. */
  lemma {:induction false} SymbolsOccur(rows: seq<TradeRow>)
    ensures forall s :: s in Symbols(rows) <==> exists i :: 0 <= i < |rows| && rows[i].symbol == s
    decreases |rows|
  {
    if rows != [] {
      var init := rows[..|rows| - 1];
      SymbolsOccur(init);
      forall s | s in Symbols(rows) ensures exists i :: 0 <= i < |rows| && rows[i].symbol == s {
        if s in Symbols(init) {
          var i :| 0 <= i < |init| && init[i].symbol == s;
          assert rows[i].symbol == s;
        } else {
          assert rows[|rows| - 1].symbol == s;
        }
      }
      forall s | exists i :: 0 <= i < |rows| && rows[i].symbol == s ensures s in Symbols(rows) {
        var i :| 0 <= i < |rows| && rows[i].symbol == s;
        if i < |init| {
          assert init[i].symbol == s;
        }
      }
    }
  }

  /** The symbols are listed once each. */
  lemma {:induction false} SymbolsDistinct(rows: seq<TradeRow>)
    ensures Distinct(Symbols(rows))
    decreases |rows|
  {
    if rows != [] {
      SymbolsDistinct(rows[..|rows| - 1]);
    }
  }

  /** A symbol that does not occur has nothing spent on it. */
  lemma {:induction false} SpentOnAbsent(rows: seq<TradeRow>, s: string)
    requires s !in Symbols(rows)
    ensures SpentOn(rows, s) == 0.0
    decreases |rows|
  {
    if rows != [] {
      var init := rows[..|rows| - 1];
      assert forall x :: x in Symbols(init) ==> x in Symbols(rows);
      SpentOnAbsent(init, s);
    }
  }

  /** The sum of the spending on the symbols of syms. */
  function SumOn(rows: seq<TradeRow>, syms: seq<string>): real {
    if syms == [] then 0.0 else SumOn(rows, syms[..|syms| - 1]) + SpentOn(rows, syms[|syms| - 1])
  }

  /** Adding one row changes the sum over distinct symbols by its cost when
      its symbol is listed, and not at all otherwise. */
  lemma {:induction false} SumOnExtend(rows: seq<TradeRow>, r: TradeRow, syms: seq<string>)
    requires Distinct(syms)
    ensures SumOn(rows + [r], syms) == SumOn(rows, syms) + (if r.symbol in syms then Cost(r) else 0.0)
    decreases |syms|
  {
    var rows' := rows + [r];
    assert rows'[..|rows'| - 1] == rows;
    if syms != [] {
      var init := syms[..|syms| - 1];
      assert Distinct(init);
      SumOnExtend(rows, r, init);
      assert r.symbol in syms <==> r.symbol in init || r.symbol == syms[|syms| - 1];
      assert r.symbol == syms[|syms| - 1] ==> r.symbol !in init;
    }
  }

  /** The total is the sum of the per-symbol amounts: buys are counted once,
      under their own symbol, and sells count nowhere. */
  lemma {:induction false} TotalIsSumOfSymbols(rows: seq<TradeRow>)
    ensures TotalSpent(rows) == SumOn(rows, Symbols(rows))
    decreases |rows|
  {
    if rows != [] {
      var init, r := rows[..|rows| - 1], rows[|rows| - 1];
      TotalIsSumOfSymbols(init);
      SymbolsDistinct(init);
      if r.symbol !in Symbols(init) {
        SpentOnAbsent(init, r.symbol);
      }
      assert rows == init + [r];
      SumOnExtend(init, r, Symbols(init));
      if r.symbol !in Symbols(init) {
        var syms := Symbols(init) + [r.symbol];
        assert syms[..|syms| - 1] == Symbols(init);
      }
    }
  }
}
