/** CoinDCX.getAPIData and CoinDCX.analyzeError: how the client builds the
    JSON body of a request (a timestamp, then the caller's fields), how it
    serialises and signs it, and which responses it hands back. The network,
    the clock and HMAC-SHA256 are parameters. */
module Api {
  import opened Wrappers

  /** The JSON scalars the client puts in request bodies. */
  datatype Json = JInt(i: int) | JFloat(f: real) | JString(s: string)

  /** A Python dict of JSON scalars: its entries in insertion order. */
  type Body = seq<(string, Json)>

  function Keys(body: Body): (ks: seq<string>)
    ensures |ks| == |body|
    ensures forall i :: 0 <= i < |body| ==> ks[i] == body[i].0
  {
    if body == [] then [] else Keys(body[..|body| - 1]) + [body[|body| - 1].0]
  }

  /** No key occurs twice, as in every dict. */
  predicate UniqueKeys(body: Body) {
    forall i, j :: 0 <= i < j < |body| ==> body[i].0 != body[j].0
  }

  /** body[k]: the value of the first entry with key k. */
  function Lookup(body: Body, k: string): (r: Option<Json>)
    ensures r.None? <==> k !in Keys(body)
  {
    if body == [] then None
    else if body[0].0 == k then Some(body[0].1)
    else Lookup(body[1..], k)
  }

  /** body[k] = v: overwrites the value in place when k is already a key,
      appends the entry otherwise. */
  function Put(body: Body, k: string, v: Json): Body {
    if body == [] then [(k, v)]
    else if body[0].0 == k then [(k, v)] + body[1..]
    else [body[0]] + Put(body[1..], k, v)
  }

  /** body.update(other): puts the entries of other in their order. */
  function Updated(body: Body, other: Body): Body
    decreases |other|
  {
    if other == [] then body
    else Updated(Put(body, other[0].0, other[0].1), other[1..])
  }

  /** The body getAPIData sends: {"timestamp": t}, updated with the caller's
      body when there is one. */
  function Merged(timestamp: int, extra: Option<Body>): Body {
    var base := [("timestamp", JInt(timestamp))];
    if extra.Some? then Updated(base, extra.value) else base
  }

  /** Putting a key makes it map to the new value and leaves every other
      lookup alone. */
  lemma {:induction false} PutLookup(body: Body, k: string, v: Json, q: string)
    ensures Lookup(Put(body, k, v), q) == if q == k then Some(v) else Lookup(body, q)
    decreases |body|
  {
    if body != [] && body[0].0 != k {
      PutLookup(body[1..], k, v, q);
    }
  }

  /** Putting an existing key keeps the key order; a new key goes last. */
  lemma {:induction false} PutKeys(body: Body, k: string, v: Json)
    ensures Keys(Put(body, k, v)) == if k in Keys(body) then Keys(body) else Keys(body) + [k]
    decreases |body|
  {
    if body != [] {
      assert Keys(body) == [body[0].0] + Keys(body[1..]) by {
        KeysCons(body);
      }
      if body[0].0 != k {
        PutKeys(body[1..], k, v);
        KeysCons(Put(body, k, v));
      } else {
        KeysCons(Put(body, k, v));
      }
    }
  }

  lemma KeysCons(body: Body)
    requires body != []
    ensures Keys(body) == [body[0].0] + Keys(body[1..])
  {
    var ks := Keys(body);
    var rest := Keys(body[1..]);
    assert forall i :: 0 <= i < |ks| ==> ks[i] == ([body[0].0] + rest)[i];
  }

  /** Putting a key keeps the keys of a dict unique. */
  lemma PutUnique(body: Body, k: string, v: Json)
    requires UniqueKeys(body)
    ensures UniqueKeys(Put(body, k, v))
  {
    var r := Put(body, k, v);
    PutKeys(body, k, v);
    assert forall i :: 0 <= i < |r| ==> r[i].0 == Keys(r)[i];
    assert forall i :: 0 <= i < |body| ==> body[i].0 == Keys(body)[i];
  }

  /** After the update, a key of the caller's body maps to the caller's
      value (the caller may even override the timestamp) and any other key
      keeps its value. */
  lemma {:induction false} UpdatedLookup(body: Body, other: Body, q: string)
    requires UniqueKeys(other)
    ensures Lookup(Updated(body, other), q) == if q in Keys(other) then Lookup(other, q) else Lookup(body, q)
    decreases |other|
  {
    if other != [] {
      var k, v := other[0].0, other[0].1;
      KeysCons(other);
      assert UniqueKeys(other[1..]);
      UpdatedLookup(Put(body, k, v), other[1..], q);
      PutLookup(body, k, v, q);
      if q == k {
        assert q !in Keys(other[1..]) by {
          assert forall j :: 0 <= j < |other[1..]| ==> other[1..][j].0 == other[j + 1].0;
        }
      }
    }
  }

  /** The update keeps the existing keys first, in their order; the keys it
      adds come after them. */
  lemma {:induction false} UpdatedKeysExtend(body: Body, other: Body)
    ensures |Updated(body, other)| >= |body|
    ensures forall j :: 0 <= j < |body| ==> Updated(body, other)[j].0 == body[j].0
    decreases |other|
  {
    if other != [] {
      var put := Put(body, other[0].0, other[0].1);
      PutKeys(body, other[0].0, other[0].1);
      assert |Keys(put)| >= |Keys(body)|;
      forall j | 0 <= j < |body| ensures put[j].0 == body[j].0 {
        assert Keys(put)[j] == Keys(body)[j];
      }
      UpdatedKeysExtend(put, other[1..]);
    }
  }

  /** The keys after the update are those before it and the caller's. */
  lemma {:induction false} UpdatedKeys(body: Body, other: Body)
    ensures forall k :: k in Keys(Updated(body, other)) <==> k in Keys(body) || k in Keys(other)
    decreases |other|
  {
    if other != [] {
      var k, v := other[0].0, other[0].1;
      PutKeys(body, k, v);
      UpdatedKeys(Put(body, k, v), other[1..]);
      KeysCons(other);
    }
  }

  /** The update keeps a dict's keys unique. */
  lemma {:induction false} UpdatedUnique(body: Body, other: Body)
    requires UniqueKeys(body)
    ensures UniqueKeys(Updated(body, other))
    decreases |other|
  {
    if other != [] {
      PutUnique(body, other[0].0, other[0].1);
      UpdatedUnique(Put(body, other[0].0, other[0].1), other[1..]);
    }
  }

  /** Every request body starts with the timestamp key, holds each of the
      caller's keys once, and looks up the caller's values, including a
      caller's own "timestamp". */
  lemma MergedBody(timestamp: int, extra: Option<Body>)
    requires extra.Some? ==> UniqueKeys(extra.value)
    ensures var body := Merged(timestamp, extra);
      && |body| >= 1 && body[0].0 == "timestamp"
      && UniqueKeys(body)
      && (forall q :: q in Keys(body) <==> q == "timestamp" || (extra.Some? && q in Keys(extra.value)))
      && (extra.Some? ==> forall q :: q in Keys(extra.value) ==> Lookup(body, q) == Lookup(extra.value, q))
      && (extra.None? || "timestamp" !in Keys(extra.value) ==> Lookup(body, "timestamp") == Some(JInt(timestamp)))
  {
    var base := [("timestamp", JInt(timestamp))];
    assert Keys(base) == ["timestamp"];
    if extra.Some? {
      UpdatedKeysExtend(base, extra.value);
      UpdatedKeys(base, extra.value);
      UpdatedUnique(base, extra.value);
      forall q ensures Lookup(Merged(timestamp, extra), q) == if q in Keys(extra.value) then Lookup(extra.value, q) else Lookup(base, q) {
        UpdatedLookup(base, extra.value, q);
      }
      var body := Merged(timestamp, extra);
      assert body[0].0 == base[0].0;
    }
  }

  /** In a dict, each entry's key looks up that entry's value. */
  lemma {:induction false} LookupAt(body: Body, i: nat)
    requires UniqueKeys(body) && i < |body|
    ensures Lookup(body, body[i].0) == Some(body[i].1)
    decreases i
  {
    if i > 0 {
      assert body[0].0 != body[i].0;
      assert UniqueKeys(body[1..]);
      LookupAt(body[1..], i - 1);
    }
  }

  /** Putting a new key appends its entry. */
  lemma {:induction false} PutFresh(body: Body, k: string, v: Json)
    requires k !in Keys(body)
    ensures Put(body, k, v) == body + [(k, v)]
    decreases |body|
  {
    if body != [] {
      KeysCons(body);
      PutFresh(body[1..], k, v);
      assert body == [body[0]] + body[1..];
    }
  }

  /** An update whose keys are all new appends the caller's entries in
      their order. */
  lemma {:induction false} UpdatedFresh(body: Body, other: Body)
    requires UniqueKeys(body + other)
    ensures Updated(body, other) == body + other
    decreases |other|
  {
    if other != [] {
      var all := body + other;
      forall j | 0 <= j < |body| ensures Keys(body)[j] != other[0].0 {
        assert all[j] == body[j] && all[|body|] == other[0];
      }
      PutFresh(body, other[0].0, other[0].1);
      assert (body + [other[0]]) + other[1..] == all;
      UpdatedFresh(body + [other[0]], other[1..]);
    }
  }

  // ---------------------------------------------------------------------
  // Compact JSON text, as json.dumps(body, separators=(',', ':')) writes it
  // ---------------------------------------------------------------------

  function DigitChar(d: nat): (c: char)
    requires d < 10
    ensures IsDigit(c) && c as int - '0' as int == d
  {
    ('0' as int + d) as char
  }

  predicate IsDigit(c: char) {
    '0' <= c <= '9'
  }

  /** The decimal digits of n, without leading zeros. */
  function Digits(n: nat): (s: string)
    ensures |s| >= 1 && AllDigits(s)
  {
    if n < 10 then [DigitChar(n)] else Digits(n / 10) + [DigitChar(n % 10)]
  }

  predicate AllDigits(s: string) {
    forall i :: 0 <= i < |s| ==> IsDigit(s[i])
  }

  /** The number a run of decimal digits spells. */
  function DigitsValue(s: string): nat
    requires AllDigits(s)
  {
    if s == [] then 0
    else DigitsValue(s[..|s| - 1]) * 10 + (s[|s| - 1] as int - '0' as int)
  }

  lemma {:induction false} DigitsRoundTrip(n: nat)
    ensures DigitsValue(Digits(n)) == n
    decreases n
  {
    if n >= 10 {
      DigitsRoundTrip(n / 10);
      var s := Digits(n);
      assert s[..|s| - 1] == Digits(n / 10);
    }
  }

  /** Python's str(int). */
  function IntText(i: int): string {
    if i < 0 then "-" + Digits(-i) else Digits(i)
  }

  /** int(s) on the text str(i) gives i back. */
  function ParseInt(s: string): Option<int> {
    if |s| >= 2 && s[0] == '-' && AllDigits(s[1..]) then Some(0 - DigitsValue(s[1..]))
    else if |s| >= 1 && AllDigits(s) then Some(DigitsValue(s))
    else None
  }

  lemma IntTextRoundTrip(i: int)
    ensures ParseInt(IntText(i)) == Some(i)
  {
    var s := IntText(i);
    if i < 0 {
      DigitsRoundTrip(-i);
      assert s[1..] == Digits(-i);
      assert s[0] == '-';
    } else {
      DigitsRoundTrip(i);
      assert s[0] != '-' by {
        assert IsDigit(s[0]);
      }
    }
  }

  function Quoted(s: string): string {
    "\"" + s + "\""
  }

  /** The text of one value; floats are written by floatText (Python's
      float repr). */
  function ValueText(v: Json, floatText: real -> string): string {
    match v
    case JInt(i) => IntText(i)
    case JFloat(f) => floatText(f)
    case JString(s) => Quoted(s)
  }

  function MemberText(e: (string, Json), floatText: real -> string): string {
    Quoted(e.0) + ":" + ValueText(e.1, floatText)
  }

  /** The members joined by a bare comma. */
  function MembersText(body: Body, floatText: real -> string): string {
    if body == [] then ""
    else if |body| == 1 then MemberText(body[0], floatText)
    else MembersText(body[..|body| - 1], floatText) + "," + MemberText(body[|body| - 1], floatText)
  }

  /** json.dumps(body, separators=(',', ':')). */
  function Serialize(body: Body, floatText: real -> string): string {
    "{" + MembersText(body, floatText) + "}"
  }

  /** The first member's text opens the members' text. */
  lemma {:induction false} MembersTextStart(body: Body, floatText: real -> string)
    requires body != []
    ensures var first := MemberText(body[0], floatText);
      |MembersText(body, floatText)| >= |first| && MembersText(body, floatText)[..|first|] == first
    decreases |body|
  {
    if |body| > 1 {
      var init := body[..|body| - 1];
      MembersTextStart(init, floatText);
      assert init[0] == body[0];
    }
  }

  /** A serialised body opens with its first member. */
  lemma SerializeStart(body: Body, floatText: real -> string)
    requires body != []
    ensures var prefix := "{" + MemberText(body[0], floatText);
      var text := Serialize(body, floatText);
      |text| >= |prefix| && text[..|prefix|] == prefix
  {
    MembersTextStart(body, floatText);
    var first := MemberText(body[0], floatText);
    var members := MembersText(body, floatText);
    var text := Serialize(body, floatText);
    var prefix := "{" + first;
    assert text == "{" + members + "}";
    forall k | 0 <= k < |prefix| ensures text[k] == prefix[k] {
      if k > 0 {
        assert text[k] == members[k - 1];
        assert members[k - 1] == members[..|first|][k - 1];
      }
    }
    assert text[..|prefix|] == prefix;
  }

  /** Unless the caller overrides it, the timestamp is the first entry of
      the body. */
  lemma MergedTimestampFirst(timestamp: int, extra: Option<Body>)
    requires extra.Some? ==> UniqueKeys(extra.value) && "timestamp" !in Keys(extra.value)
    ensures |Merged(timestamp, extra)| >= 1 && Merged(timestamp, extra)[0] == ("timestamp", JInt(timestamp))
  {
    var body := Merged(timestamp, extra);
    MergedBody(timestamp, extra);
    assert Lookup(body, "timestamp") == Some(body[0].1);
  }

  /** The signed text of a request begins with its timestamp. */
  lemma SerializedTimestampFirst(timestamp: int, extra: Option<Body>, floatText: real -> string)
    requires extra.Some? ==> UniqueKeys(extra.value) && "timestamp" !in Keys(extra.value)
    ensures var prefix := "{\"timestamp\":" + IntText(timestamp);
      var text := Serialize(Merged(timestamp, extra), floatText);
      |text| >= |prefix| && text[..|prefix|] == prefix
  {
    var body := Merged(timestamp, extra);
    MergedTimestampFirst(timestamp, extra);
    SerializeStart(body, floatText);
    TimestampMemberText(timestamp, floatText);
  }

  lemma TimestampMemberText(timestamp: int, floatText: real -> string)
    ensures "{" + MemberText(("timestamp", JInt(timestamp)), floatText) == "{\"timestamp\":" + IntText(timestamp)
  {
    var q, t := Quoted("timestamp"), IntText(timestamp);
    assert MemberText(("timestamp", JInt(timestamp)), floatText) == q + ":" + t;
    assert "{" + (q + ":" + t) == ("{" + q + ":") + t;
    assert "{" + q + ":" == "{\"timestamp\":";
  }

  /** No text in the entry has a space. */
  predicate SpaceFree(s: string) {
    forall i :: 0 <= i < |s| ==> s[i] != ' '
  }

  /** The separators add no whitespace: when no key, string value or float
      text has a space, neither does the serialised body. */
  lemma {:induction false} SerializeIsCompact(body: Body, floatText: real -> string)
    requires forall i :: 0 <= i < |body| ==> SpaceFree(body[i].0)
    requires forall i :: 0 <= i < |body| ==> body[i].1.JString? ==> SpaceFree(body[i].1.s)
    requires forall f: real :: SpaceFree(floatText(f))
    ensures SpaceFree(Serialize(body, floatText))
  {
    MembersCompact(body, floatText);
    SpaceFreeJoin("{", MembersText(body, floatText));
    SpaceFreeJoin("{" + MembersText(body, floatText), "}");
  }

  lemma {:induction false} MembersCompact(body: Body, floatText: real -> string)
    requires forall i :: 0 <= i < |body| ==> SpaceFree(body[i].0)
    requires forall i :: 0 <= i < |body| ==> body[i].1.JString? ==> SpaceFree(body[i].1.s)
    requires forall f: real :: SpaceFree(floatText(f))
    ensures SpaceFree(MembersText(body, floatText))
    decreases |body|
  {
    if |body| == 1 {
      MemberCompact(body[0], floatText);
    } else if |body| > 1 {
      var init, last := body[..|body| - 1], body[|body| - 1];
      MembersCompact(init, floatText);
      MemberCompact(last, floatText);
      SpaceFreeJoin(MembersText(init, floatText), ",");
      SpaceFreeJoin(MembersText(init, floatText) + ",", MemberText(last, floatText));
    }
  }

  lemma MemberCompact(e: (string, Json), floatText: real -> string)
    requires SpaceFree(e.0) && (e.1.JString? ==> SpaceFree(e.1.s))
    requires forall f: real :: SpaceFree(floatText(f))
    ensures SpaceFree(MemberText(e, floatText))
  {
    QuotedCompact(e.0);
    match e.1 {
      case JInt(i) => IntTextCompact(i);
      case JFloat(f) =>
      case JString(s) => QuotedCompact(s);
    }
    SpaceFreeJoin(Quoted(e.0), ":");
    SpaceFreeJoin(Quoted(e.0) + ":", ValueText(e.1, floatText));
  }

  lemma QuotedCompact(s: string)
    requires SpaceFree(s)
    ensures SpaceFree(Quoted(s))
  {
    SpaceFreeJoin("\"", s);
    SpaceFreeJoin("\"" + s, "\"");
  }

  lemma IntTextCompact(i: int)
    ensures SpaceFree(IntText(i))
  {
    var d := Digits(if i < 0 then -i else i);
    assert SpaceFree(d) by {
      forall k | 0 <= k < |d| ensures d[k] != ' ' {
        assert IsDigit(d[k]);
      }
    }
    if i < 0 {
      SpaceFreeJoin("-", d);
    }
  }

  lemma SpaceFreeJoin(s: string, t: string)
    requires SpaceFree(s) && SpaceFree(t)
    ensures SpaceFree(s + t)
  {
    forall k | 0 <= k < |s + t| ensures (s + t)[k] != ' ' {
      if k >= |s| {
        assert (s + t)[k] == t[k - |s|];
      }
    }
  }

  // ---------------------------------------------------------------------
  // The request and the response
  // ---------------------------------------------------------------------

  /** What goes on the wire. A GET carries neither body nor headers. */
  datatype Request = Get(url: string) | Post(url: string, data: string, headers: seq<(string, string)>)

  /** The request getAPIData issues. sign(text) is the hex HMAC-SHA256 of
      text under the account secret. The body is built and signed for a GET
      too, and then not sent. */
  function RequestFor(url: string, extra: Option<Body>, verb: string, timestamp: int, apiKey: string,
                      sign: string -> string, floatText: real -> string): (r: Request)
    ensures r.url == url
    ensures r.Get? <==> verb == "get"
    ensures r.Post? ==> r.data == Serialize(Merged(timestamp, extra), floatText)
    ensures r.Post? ==> |r.headers| == 3 && r.headers[2] == ("X-AUTH-SIGNATURE", sign(r.data))
  {
    var data := Serialize(Merged(timestamp, extra), floatText);
    var headers := [("Content-Type", "application/json"), ("X-AUTH-APIKEY", apiKey), ("X-AUTH-SIGNATURE", sign(data))];
    if verb == "get" then Get(url) else Post(url, data, headers)
  }

  /** The signature covers exactly the bytes posted, timestamp first, so the
      exchange can check it against the data it receives. */
  lemma SignatureCoversPostedData(url: string, extra: Option<Body>, verb: string, timestamp: int, apiKey: string,
                                  sign: string -> string, floatText: real -> string)
    requires verb != "get"
    requires extra.Some? ==> UniqueKeys(extra.value) && "timestamp" !in Keys(extra.value)
    ensures var r := RequestFor(url, extra, verb, timestamp, apiKey, sign, floatText);
      var prefix := "{\"timestamp\":" + IntText(timestamp);
      && r.Post? && r.headers[2].1 == sign(r.data)
      && |r.data| >= |prefix| && r.data[..|prefix|] == prefix
  {
    SerializedTimestampFirst(timestamp, extra, floatText);
  }

  /** What the transport reports: an exception, or a status and a payload. */
  datatype Response<T> = Raised | Http(status: int, payload: T)

  /** getAPIData's result: the payload of a 200 response, None otherwise. */
  function Deliver<T>(r: Response<T>): (o: Option<T>)
    ensures o.Some? <==> r.Http? && r.status == 200
    ensures o.Some? ==> o.value == r.payload
  {
    if r.Raised? || r.status != 200 then None else Some(r.payload)
  }

  /** The error texts analyzeError knows, by status code. */
  function DocumentedError(status: int): (m: Option<string>)
    ensures m.Some? <==> status in {400, 401, 404, 429, 500, 503}
  {
    if status == 400 then Some("Bad Request -- Your request is invalid.")
    else if status == 401 then Some("Unauthorized -- Your API key is wrong.")
    else if status == 404 then Some("Not Found -- The specified link could not be found.")
    else if status == 429 then Some("Too Many Requests -- You're making too many API calls")
    else if status == 500 then Some("Internal Server Error -- We had a problem with our server. Try again later.")
    else if status == 503 then Some("Service Unavailable -- We're temporarily offline for maintenance. Please try again later.")
    else None
  }

  /** The line analyzeError reports for a failed request to url. */
  function ErrorReport(url: string, status: int): string {
    match DocumentedError(status)
    case Some(m) => "Error for '" + url + "': " + m
    case None => "Unknown error for '" + url + "' status code: " + IntText(status)
  }

  /** An undocumented code is reported with its number, which the report
      lets one read back. */
  lemma UnknownErrorNamesCode(url: string, status: int)
    requires DocumentedError(status).None?
    ensures var prefix := "Unknown error for '" + url + "' status code: ";
      var report := ErrorReport(url, status);
      |report| > |prefix| && report[..|prefix|] == prefix && ParseInt(report[|prefix|..]) == Some(status)
  {
    var prefix := "Unknown error for '" + url + "' status code: ";
    var report := ErrorReport(url, status);
    assert report == prefix + IntText(status);
    assert report[|prefix|..] == IntText(status);
    IntTextRoundTrip(status);
  }
}
