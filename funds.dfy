/** What the client does with the account's balance records: the INR funds
    available to buy-all (CoinDCX.getFundsAvail) and the lend requests of
    the lend command (CoinDCX.lend). */
module Funds {
  import opened Wrappers
  import opened Catalog
  import opened Api

  /** One record of users/balances: the currency, the balance as the text
      the exchange sent and as a number, and the locked balance. */
  datatype BalanceRecord = BalanceRecord(currency: string, balanceText: string, balance: real, lockedBalance: real)

  /** The balance of the first INR record, 0.0 when there is none; the
      locked balance does not count. */
  function AvailableFunds(records: seq<BalanceRecord>): real {
    if records == [] then 0.0
    else if records[0].currency == Inr then records[0].balance
    else AvailableFunds(records[1..])
  }

  /** getFundsAvail: None when the balances could not be fetched, the INR
      balance otherwise. */
  method GetFundsAvail(data: Option<seq<BalanceRecord>>) returns (r: Option<real>)
    ensures data.None? ==> r.None?
    ensures data.Some? ==> r == Some(AvailableFunds(data.value))
  {
    if data.None? {
      return None;
    }
    var records := data.value;
    var fundsAvail := 0.0;
    var i := 0;
    while i < |records|
      invariant 0 <= i <= |records|
      invariant AvailableFunds(records) == AvailableFunds(records[i..])
      invariant fundsAvail == 0.0
    {
      assert records[i..][1..] == records[i + 1..];
      if records[i].currency == Inr {
        fundsAvail := records[i].balance;
        break;
      }
      i := i + 1;
    }
    return Some(fundsAvail);
  }

  /** The funds are the balance of the first INR record. */
  lemma {:induction false} FundsAreFirstInrBalance(records: seq<BalanceRecord>, i: nat)
    requires i < |records| && records[i].currency == Inr
    requires forall j :: 0 <= j < i ==> records[j].currency != Inr
    ensures AvailableFunds(records) == records[i].balance
    decreases i
  {
    if i > 0 {
      FundsAreFirstInrBalance(records[1..], i - 1);
    }
  }

  /** Without an INR record there are no funds. */
  lemma {:induction false} NoInrNoFunds(records: seq<BalanceRecord>)
    requires forall j :: 0 <= j < |records| ==> records[j].currency != Inr
    ensures AvailableFunds(records) == 0.0
    decreases |records|
  {
    if records != [] {
      NoInrNoFunds(records[1..]);
    }
  }

  /** Locked balances, held by open orders, never add to the funds. */
  lemma {:induction false} LockedBalanceIgnored(records: seq<BalanceRecord>, others: seq<BalanceRecord>)
    requires |records| == |others|
    requires forall j :: 0 <= j < |records| ==>
      records[j].currency == others[j].currency && records[j].balance == others[j].balance
    ensures AvailableFunds(records) == AvailableFunds(others)
    decreases |records|
  {
    if records != [] {
      LockedBalanceIgnored(records[1..], others[1..]);
    }
  }

  // ---------------------------------------------------------------------
  // Lending
  // ---------------------------------------------------------------------

  /** Why the lend command skips a record, or that it lends it. */
  datatype LendVerdict = SkipInr | SkipZero | SkipSmall | SkipNotRequested | Lend

  /** The amount below which a balance counts as dust. */
  const SmallAmount: real := 0.001

  /** The checks of the lend loop, in their order. The zero check compares
      the exchange's text with "0.0", not the number. An empty list of
      requested currencies requests all of them. */
  function VerdictFor(r: BalanceRecord, requested: seq<string>, ignoreSmall: bool): LendVerdict {
    if r.currency == Inr then SkipInr
    else if r.balanceText == "0.0" then SkipZero
    else if r.balance < SmallAmount && ignoreSmall then SkipSmall
    else if |requested| > 0 && r.currency !in requested then SkipNotRequested
    else Lend
  }

  /** args.duration or 7: an absent or empty text means 7 days, and any
      non-empty text (a "0" included) is the number it spells. The option
      is None for an absent or empty text. */
  function EffectiveDuration(duration: Option<int>): int {
    if duration.None? then 7 else duration.value
  }

  /** One funding/lend request: the whole balance of one currency. */
  datatype LendRequest = LendRequest(currency: string, duration: int, amount: real) {
    /** Its JSON body, keys in the order the client writes them. */
    function Body(): Body {
      [("currency_short_name", JString(currency)), ("duration", JInt(duration)), ("amount", JFloat(amount))]
    }
  }

  function LendRequestFor(r: BalanceRecord, duration: int): LendRequest {
    LendRequest(r.currency, duration, r.balance)
  }

  /** The lend requests for the records, in record order. */
  function LendRequests(records: seq<BalanceRecord>, requested: seq<string>, ignoreSmall: bool, duration: int): seq<LendRequest> {
    if records == [] then []
    else
      var init, r := records[..|records| - 1], records[|records| - 1];
      LendRequests(init, requested, ignoreSmall, duration)
        + (if VerdictFor(r, requested, ignoreSmall) == Lend then [LendRequestFor(r, duration)] else [])
  }

  /** The lend command: None when the balances could not be fetched,
      otherwise the bodies it posts, in order. notIgnoreSmallAmounts is the
      command's override flag. */
  method LendAll(data: Option<seq<BalanceRecord>>, duration: Option<int>, currencies: Option<seq<string>>,
                 notIgnoreSmallAmounts: bool)
    returns (r: Option<seq<LendRequest>>)
    ensures data.None? ==> r.None?
    ensures data.Some? ==> r == Some(LendRequests(data.value, if currencies.Some? then currencies.value else [],
                                                  !notIgnoreSmallAmounts, EffectiveDuration(duration)))
  {
    var days := if duration.None? then 7 else duration.value;
    var requested := if currencies.Some? then currencies.value else [];
    var ignoreSmall := !notIgnoreSmallAmounts;
    if data.None? {
      return None;
    }
    var records := data.value;
    var bodies := [];
    for i := 0 to |records|
      invariant bodies == LendRequests(records[..i], requested, ignoreSmall, days)
    {
      assert records[..i + 1][..i] == records[..i];
      var doc := records[i];
      if doc.currency == Inr {
        continue;
      }
      if doc.balanceText != "0.0" {
        if doc.balance < SmallAmount && ignoreSmall {
        } else if |requested| > 0 && doc.currency !in requested {
        } else {
          bodies := bodies + [LendRequestFor(doc, days)];
        }
      }
    }
    assert records[..|records|] == records;
    return Some(bodies);
  }

  /** A lend request is posted for exactly the records whose verdict is
      Lend, each with its own currency and whole balance. */
  lemma {:induction false} LendRequestsExactly(records: seq<BalanceRecord>, requested: seq<string>, ignoreSmall: bool, duration: int)
    ensures forall b :: b in LendRequests(records, requested, ignoreSmall, duration) ==>
      exists r :: r in records && VerdictFor(r, requested, ignoreSmall) == Lend && b == LendRequestFor(r, duration)
    ensures forall r :: r in records && VerdictFor(r, requested, ignoreSmall) == Lend ==>
      LendRequestFor(r, duration) in LendRequests(records, requested, ignoreSmall, duration)
    decreases |records|
  {
    if records != [] {
      var init := records[..|records| - 1];
      LendRequestsExactly(init, requested, ignoreSmall, duration);
      assert records == init + [records[|records| - 1]];
    }
  }

  /** The lend command never lends INR, never lends dust unless told to,
      and lends only requested currencies when some are requested. */
  lemma LendIsSafe(records: seq<BalanceRecord>, requested: seq<string>, ignoreSmall: bool, duration: int)
    ensures forall b :: b in LendRequests(records, requested, ignoreSmall, duration) ==>
      && b.currency != Inr
      && (ignoreSmall ==> b.amount >= SmallAmount)
      && (|requested| > 0 ==> b.currency in requested)
      && b.duration == duration
  {
    LendRequestsExactly(records, requested, ignoreSmall, duration);
  }
}
