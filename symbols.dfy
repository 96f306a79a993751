/** The market symbol of an order: the pair with every "I-" and then every
    "_" deleted, as Python's `str.replace(old, "")` deletes them (left to
    right, matches not overlapping). */
module Symbols {

  /** s with every non-overlapping occurrence of pat, scanned from the left,
      deleted. */
  function RemoveAll(s: string, pat: string): string
    requires |pat| > 0
    decreases |s|
  {
    if |s| < |pat| then s
    else if s[..|pat|] == pat then RemoveAll(s[|pat|..], pat)
    else [s[0]] + RemoveAll(s[1..], pat)
  }

  function MarketSymbol(pair: string): string {
    RemoveAll(RemoveAll(pair, "I-"), "_")
  }

  /** No "I-" occurs in s. */
  predicate NoExchangePrefix(s: string) {
    forall i :: 0 <= i < |s| - 1 ==> !(s[i] == 'I' && s[i + 1] == '-')
  }

  /** Deleting every "_" leaves none behind. */
  lemma {:induction false} RemoveAllUnderscores(s: string)
    ensures '_' !in RemoveAll(s, "_")
    decreases |s|
  {
    if |s| >= 1 {
      if s[..1] == "_" {
        RemoveAllUnderscores(s[1..]);
      } else {
        RemoveAllUnderscores(s[1..]);
        assert s[0] != '_';
      }
    }
  }

  /** A symbol never contains "_". */
  lemma MarketSymbolHasNoSeparator(pair: string)
    ensures '_' !in MarketSymbol(pair)
  {
    RemoveAllUnderscores(RemoveAll(pair, "I-"));
  }

  lemma {:induction false} RemoveAbsentUnderscore(s: string)
    requires '_' !in s
    ensures RemoveAll(s, "_") == s
    decreases |s|
  {
    if |s| >= 1 {
      assert s[..1] != "_" by { assert s[..1][0] == s[0]; }
      RemoveAbsentUnderscore(s[1..]);
      assert s == [s[0]] + s[1..];
    }
  }

  lemma {:induction false} RemoveAbsentPrefix(s: string)
    requires NoExchangePrefix(s)
    ensures RemoveAll(s, "I-") == s
    decreases |s|
  {
    if |s| >= 2 {
      assert s[..2] != "I-" by { assert s[..2][0] == s[0] && s[..2][1] == s[1]; }
      RemoveAbsentPrefix(s[1..]);
      assert s == [s[0]] + s[1..];
    }
  }

  lemma {:induction false} RemoveOneUnderscore(b: string, q: string)
    requires '_' !in b && '_' !in q
    ensures RemoveAll(b + "_" + q, "_") == b + q
    decreases |b|
  {
    var s := b + "_" + q;
    if b == [] {
      assert s[..1] == "_";
      assert s[1..] == q;
      RemoveAbsentUnderscore(q);
    } else {
      assert s[..1] != "_" by { assert s[..1][0] == b[0]; }
      assert s[1..] == b[1..] + "_" + q;
      RemoveOneUnderscore(b[1..], q);
      assert b + q == [b[0]] + (b[1..] + q);
    }
  }

  /** For a pair "I-<base>_<quote>" whose two currency codes contain neither
      "_" nor "I-", the symbol is the two codes written together. */
  lemma MarketSymbolOfPair(base: string, quote: string)
    requires '_' !in base && '_' !in quote
    requires NoExchangePrefix(base) && NoExchangePrefix(quote)
    ensures MarketSymbol("I-" + base + "_" + quote) == base + quote
  {
    var pair := "I-" + base + "_" + quote;
    var rest := base + "_" + quote;
    assert pair[..2] == "I-";
    assert pair[2..] == rest;
    assert NoExchangePrefix(rest) by {
      forall i | 0 <= i < |rest| - 1
        ensures !(rest[i] == 'I' && rest[i + 1] == '-')
      {
        if i < |base| - 1 {
          assert rest[i] == base[i] && rest[i + 1] == base[i + 1];
        } else if i == |base| - 1 {
          assert rest[i + 1] == '_';
        } else if i == |base| {
          assert rest[i] == '_';
        } else {
          assert rest[i] == quote[i - |base| - 1] && rest[i + 1] == quote[i - |base|];
        }
      }
    }
    RemoveAbsentPrefix(rest);
    RemoveOneUnderscore(base, quote);
  }

  /** The pair of the Bitcoin market, I-BTC_INR, is ordered as BTCINR. */
  lemma BitcoinSymbol()
    ensures MarketSymbol("I-BTC_INR") == "BTCINR"
  {
    var base, quote := "BTC", "INR";
    assert '_' !in base && '_' !in quote;
    assert NoExchangePrefix(base) && NoExchangePrefix(quote);
    MarketSymbolOfPair(base, quote);
    assert "I-" + base + "_" + quote == "I-BTC_INR";
    assert base + quote == "BTCINR";
  }
}
