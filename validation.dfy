/** `validateTradeData` of backend/routes/bucket.route.js: the route-level
    check of a trade payload, which collects every error message in a fixed
    order instead of stopping at the first. */
module TradeValidation {
  import opened Wrappers
  import opened Trading

  /** A trade payload as it arrives in a request body; every field may be
      absent (`undefined` or `null`). */
  datatype TradeData = TradeData(
    instrument: Option<string>,
    qty: Option<real>,
    avg: Option<real>,
    ltp: Option<real>,
    status: Option<string>,
    sellPrice: Option<real>)

  /** The payload fields the schema requires, named as in the request body. */
  datatype Field = Instrument | Qty | Avg | Ltp | Status

  function FieldName(f: Field): string
  {
    match f
    case Instrument => "instrument"
    case Qty => "qty"
    case Avg => "avg"
    case Ltp => "ltp"
    case Status => "status"
  }

  const RequiredFields: seq<Field> := [Instrument, Qty, Avg, Ltp, Status]
  const SellPriceMustBeNull: string := "sellPrice must be null for open positions"
  const InvalidStatus: string := "status must be either \"open\" or \"closed\""

  /** The four kinds of complaint the validator can make. */
  datatype Issue = Missing(field: Field) | SellPriceMissing | SellPriceNotNull | StatusInvalid

  /** The message pushed for each complaint. */
  function Message(e: Issue): string
  {
    match e
    case Missing(f) => FieldName(f) + " is required"
    case SellPriceMissing => SellPriceRequired
    case SellPriceNotNull => SellPriceMustBeNull
    case StatusInvalid => InvalidStatus
  }

  /** `trade[field] === undefined || trade[field] === null` */
  predicate FieldAbsent(d: TradeData, f: Field)
  {
    match f
    case Instrument => d.instrument.None?
    case Qty => d.qty.None?
    case Avg => d.avg.None?
    case Ltp => d.ltp.None?
    case Status => d.status.None?
  }

  function IssueIf(condition: bool, e: Issue): seq<Issue>
  {
    if condition then [e] else []
  }

  /** The `forEach` over the required fields, one complaint per absent field. */
  function RequiredIssues(d: TradeData, fields: seq<Field>): seq<Issue>
    decreases |fields|
  {
    if fields == [] then []
    else IssueIf(FieldAbsent(d, fields[0]), Missing(fields[0])) + RequiredIssues(d, fields[1..])
  }

  /** JavaScript truthiness of a string-valued field. */
  predicate Truthy(s: Option<string>)
  {
    s.Some? && s.value != ""
  }

  /** The sellPrice and status checks that follow the required fields, in
      source order. */
  function ConsistencyIssues(d: TradeData): seq<Issue>
  {
    IssueIf(d.status == Some(Closed) && d.sellPrice.None?, SellPriceMissing)
    + IssueIf(d.status == Some(Open) && d.sellPrice.Some?, SellPriceNotNull)
    + IssueIf(Truthy(d.status) && d.status.value != Open && d.status.value != Closed, StatusInvalid)
  }

  /** Every complaint about a payload, in the order the validator pushes them. */
  function Issues(d: TradeData): seq<Issue>
  {
    RequiredIssues(d, RequiredFields) + ConsistencyIssues(d)
  }

  /** The messages of a list of complaints, in the same order. */
  function Messages(es: seq<Issue>): (ms: seq<string>)
    ensures |ms| == |es|
    ensures forall i :: 0 <= i < |es| ==> ms[i] == Message(es[i])
    decreases |es|
  {
    if es == [] then [] else [Message(es[0])] + Messages(es[1..])
  }

  /** The validator: the required-field messages, then the consistency
      messages, all collected rather than stopping at the first. */
  function ValidateTradeData(d: TradeData): seq<string>
  {
    Messages(Issues(d))
  }

  /** All five required fields are present. */
  predicate RequiredPresent(d: TradeData)
  {
    && d.instrument.Some? && d.qty.Some? && d.avg.Some? && d.ltp.Some? && d.status.Some?
  }

  /** Distinct complaints have distinct messages: the required-field messages
      are at most 22 characters, the other three 42, 41 and 40. */
  lemma MessageInjective(e: Issue, e': Issue)
    ensures Message(e) == Message(e') ==> e == e'
  {
    assert |SellPriceRequired| == 42 && |SellPriceMustBeNull| == 41 && |InvalidStatus| == 40;
    if e.Missing? && e'.Missing? && e != e' && |Message(e)| == |Message(e')| {
      assert Message(e)[0] == FieldName(e.field)[0];
      assert Message(e')[0] == FieldName(e'.field)[0];
    }
  }

  /** A message is in the rendered list iff its complaint is in the list. */
  lemma MessagesContain(es: seq<Issue>, e: Issue)
    ensures Message(e) in Messages(es) <==> e in es
  {
    if Message(e) in Messages(es) {
      var i :| 0 <= i < |es| && Messages(es)[i] == Message(e);
      MessageInjective(e, es[i]);
    }
    if e in es {
      var i :| 0 <= i < |es| && es[i] == e;
      assert Messages(es)[i] == Message(e);
    }
  }

  /** Rendering keeps the number of occurrences of each complaint. */
  lemma {:induction false} MessagesCount(es: seq<Issue>, e: Issue)
    ensures multiset(Messages(es))[Message(e)] == multiset(es)[e]
    decreases |es|
  {
    if es != [] {
      MessagesCount(es[1..], e);
      MessageInjective(e, es[0]);
      assert es == [es[0]] + es[1..];
      CountCons(es[0], es[1..], e);
      CountCons(Message(es[0]), Messages(es[1..]), Message(e));
    }
  }

  lemma CountCons<T>(x: T, rest: seq<T>, y: T)
    ensures multiset([x] + rest)[y] == (if x == y then 1 else 0) + multiset(rest)[y]
  {
    assert multiset([x] + rest) == multiset([x]) + multiset(rest);
  }

  /** The required-field complaints, in the order of the field list. */
  lemma RequiredIssuesInFieldOrder(d: TradeData)
    ensures RequiredIssues(d, RequiredFields)
         == IssueIf(d.instrument.None?, Missing(Instrument))
          + IssueIf(d.qty.None?, Missing(Qty))
          + IssueIf(d.avg.None?, Missing(Avg))
          + IssueIf(d.ltp.None?, Missing(Ltp))
          + IssueIf(d.status.None?, Missing(Status))
  {
    var m1 := IssueIf(d.instrument.None?, Missing(Instrument));
    var m2 := IssueIf(d.qty.None?, Missing(Qty));
    var m3 := IssueIf(d.avg.None?, Missing(Avg));
    var m4 := IssueIf(d.ltp.None?, Missing(Ltp));
    var m5 := IssueIf(d.status.None?, Missing(Status));
    calc {
      RequiredIssues(d, RequiredFields);
      { RequiredIssuesStep(d, Instrument, [Qty, Avg, Ltp, Status]); }
      m1 + RequiredIssues(d, [Qty, Avg, Ltp, Status]);
      { RequiredIssuesStep(d, Qty, [Avg, Ltp, Status]); }
      m1 + (m2 + RequiredIssues(d, [Avg, Ltp, Status]));
      { RequiredIssuesStep(d, Avg, [Ltp, Status]); }
      m1 + (m2 + (m3 + RequiredIssues(d, [Ltp, Status])));
      { RequiredIssuesStep(d, Ltp, [Status]); }
      m1 + (m2 + (m3 + (m4 + RequiredIssues(d, [Status]))));
      { RequiredIssuesStep(d, Status, []); }
      m1 + (m2 + (m3 + (m4 + m5)));
      m1 + m2 + m3 + m4 + m5;
    }
  }

  lemma RequiredIssuesStep(d: TradeData, f: Field, rest: seq<Field>)
    ensures RequiredIssues(d, [f] + rest) == IssueIf(FieldAbsent(d, f), Missing(f)) + RequiredIssues(d, rest)
  {
    assert ([f] + rest)[1..] == rest;
  }

  /** The whole list of complaints, spelled out. */
  lemma IssuesSpelledOut(d: TradeData)
    ensures Issues(d)
         == IssueIf(d.instrument.None?, Missing(Instrument))
          + IssueIf(d.qty.None?, Missing(Qty))
          + IssueIf(d.avg.None?, Missing(Avg))
          + IssueIf(d.ltp.None?, Missing(Ltp))
          + IssueIf(d.status.None?, Missing(Status))
          + IssueIf(d.status == Some(Closed) && d.sellPrice.None?, SellPriceMissing)
          + IssueIf(d.status == Some(Open) && d.sellPrice.Some?, SellPriceNotNull)
          + IssueIf(Truthy(d.status) && d.status.value != Open && d.status.value != Closed, StatusInvalid)
  {
    RequiredIssuesInFieldOrder(d);
  }

  /** The result is empty iff the five required fields are present and the
      status is either empty, open without a sellPrice, or closed with one. */
  lemma ValidateTradeDataEmptyIff(d: TradeData)
    ensures ValidateTradeData(d) == [] <==>
      && RequiredPresent(d)
      && (|| d.status.value == ""
          || (d.status.value == Open && d.sellPrice.None?)
          || (d.status.value == Closed && d.sellPrice.Some?))
  {
    IssuesSpelledOut(d);
  }

  /** At most five messages: five absent fields, or at most four and one
      status message. The four status-related messages ("status is
      required", the two sellPrice messages and the status-value message)
      exclude each other. */
  lemma ValidateTradeDataAtMostFive(d: TradeData)
    ensures |ValidateTradeData(d)| <= 5
    ensures Message(Missing(Status)) in ValidateTradeData(d) ==>
      && SellPriceRequired !in ValidateTradeData(d)
      && SellPriceMustBeNull !in ValidateTradeData(d)
      && InvalidStatus !in ValidateTradeData(d)
    ensures !(SellPriceRequired in ValidateTradeData(d) && SellPriceMustBeNull in ValidateTradeData(d))
    ensures !(SellPriceRequired in ValidateTradeData(d) && InvalidStatus in ValidateTradeData(d))
    ensures !(SellPriceMustBeNull in ValidateTradeData(d) && InvalidStatus in ValidateTradeData(d))
  {
    IssuesSpelledOut(d);
    MessageIff(d, Missing(Status));
    MessageIff(d, SellPriceMissing);
    MessageIff(d, SellPriceNotNull);
    MessageIff(d, StatusInvalid);
  }

  /** Whether the validator complains `e` about `d`. */
  predicate Raised(d: TradeData, e: Issue)
  {
    match e
    case Missing(f) => FieldAbsent(d, f)
    case SellPriceMissing => d.status == Some(Closed) && d.sellPrice.None?
    case SellPriceNotNull => d.status == Some(Open) && d.sellPrice.Some?
    case StatusInvalid => Truthy(d.status) && d.status.value != Open && d.status.value != Closed
  }

  lemma {:induction false} RequiredIssuesContain(d: TradeData, fields: seq<Field>, e: Issue)
    ensures e in RequiredIssues(d, fields) <==> e.Missing? && e.field in fields && FieldAbsent(d, e.field)
    decreases |fields|
  {
    if fields != [] {
      RequiredIssuesContain(d, fields[1..], e);
      assert e.Missing? ==> (e.field in fields <==> e.field == fields[0] || e.field in fields[1..]);
    }
  }

  /** The validator complains `e` iff `e`'s condition holds. */
  lemma IssuesContain(d: TradeData, e: Issue)
    ensures e in Issues(d) <==> Raised(d, e)
  {
    RequiredIssuesContain(d, RequiredFields, e);
    if e.Missing? {
      EveryFieldRequired(e.field);
    }
  }

  lemma EveryFieldRequired(f: Field)
    ensures f in RequiredFields
  {
    match f
    case Instrument => assert RequiredFields[0] == f;
    case Qty => assert RequiredFields[1] == f;
    case Avg => assert RequiredFields[2] == f;
    case Ltp => assert RequiredFields[3] == f;
    case Status => assert RequiredFields[4] == f;
  }

  lemma RequiredFieldsDistinct()
    ensures forall i, j :: 0 <= i < j < |RequiredFields| ==> RequiredFields[i] != RequiredFields[j]
  {
  }

  /** Each message appears iff its condition holds. */
  lemma MessageIff(d: TradeData, e: Issue)
    ensures Message(e) in ValidateTradeData(d) <==> Raised(d, e)
  {
    MessagesContain(Issues(d), e);
    IssuesContain(d, e);
  }

  /** Over a list of distinct fields, the forEach complains about F once if
      F is listed and absent, and never otherwise. */
  lemma {:induction false} RequiredIssuesCount(d: TradeData, fields: seq<Field>, f: Field)
    requires forall i, j :: 0 <= i < j < |fields| ==> fields[i] != fields[j]
    ensures multiset(RequiredIssues(d, fields))[Missing(f)]
         == if f in fields && FieldAbsent(d, f) then 1 else 0
    decreases |fields|
  {
    if fields != [] {
      RequiredIssuesCount(d, fields[1..], f);
      assert f in fields <==> f == fields[0] || f in fields[1..];
      assert fields[0] !in fields[1..];
    }
  }

  lemma MissingCount(d: TradeData, f: Field)
    ensures multiset(Issues(d))[Missing(f)] == if FieldAbsent(d, f) then 1 else 0
  {
    RequiredMissingCount(d, f);
    ConsistencyMissingCount(d, f);
    CountConcat(RequiredIssues(d, RequiredFields), ConsistencyIssues(d), Missing(f));
  }

  lemma RequiredMissingCount(d: TradeData, f: Field)
    ensures multiset(RequiredIssues(d, RequiredFields))[Missing(f)] == if FieldAbsent(d, f) then 1 else 0
  {
    RequiredFieldsDistinct();
    RequiredIssuesCount(d, RequiredFields, f);
    EveryFieldRequired(f);
  }

  lemma ConsistencyMissingCount(d: TradeData, f: Field)
    ensures multiset(ConsistencyIssues(d))[Missing(f)] == 0
  {
    assert Missing(f) !in ConsistencyIssues(d);
  }

  lemma CountConcat(a: seq<Issue>, b: seq<Issue>, e: Issue)
    ensures multiset(a + b)[e] == multiset(a)[e] + multiset(b)[e]
  {
    assert multiset(a + b) == multiset(a) + multiset(b);
  }

  /** "F is required" appears exactly once when F is absent and not at all
      otherwise: a zero qty or an empty status draws no such message. */
  lemma RequiredMessageCount(d: TradeData, f: Field)
    ensures multiset(ValidateTradeData(d))[Message(Missing(f))] == (if FieldAbsent(d, f) then 1 else 0)
  {
    MissingCount(d, f);
    MessagesCount(Issues(d), Missing(f));
  }

  /** The two sellPrice messages, each with its exact condition; they
      exclude each other. */
  lemma SellPriceMessagesIff(d: TradeData)
    ensures SellPriceRequired in ValidateTradeData(d) <==> d.status == Some(Closed) && d.sellPrice.None?
    ensures SellPriceMustBeNull in ValidateTradeData(d) <==> d.status == Some(Open) && d.sellPrice.Some?
    ensures !(SellPriceRequired in ValidateTradeData(d) && SellPriceMustBeNull in ValidateTradeData(d))
  {
    MessageIff(d, SellPriceMissing);
    MessageIff(d, SellPriceNotNull);
  }

  /** The status-value message appears iff status is truthy and neither
      "open" nor "closed"; an empty status draws no status message. */
  lemma InvalidStatusIff(d: TradeData)
    ensures InvalidStatus in ValidateTradeData(d)
        <==> Truthy(d.status) && d.status.value != Open && d.status.value != Closed
    ensures d.status == Some("") ==>
      && Message(Missing(Status)) !in ValidateTradeData(d)
      && SellPriceRequired !in ValidateTradeData(d)
      && SellPriceMustBeNull !in ValidateTradeData(d)
      && InvalidStatus !in ValidateTradeData(d)
  {
    MessageIff(d, StatusInvalid);
    MessageIff(d, Missing(Status));
    MessageIff(d, SellPriceMissing);
    MessageIff(d, SellPriceNotNull);
  }

  /** For a present status, the route's two sellPrice checks reject exactly
      what the schema's sellPrice validator rejects. */
  lemma RouteAgreesWithSellPriceValidator(d: TradeData)
    requires d.status.Some?
    ensures (SellPriceRequired !in ValidateTradeData(d) && SellPriceMustBeNull !in ValidateTradeData(d))
        <==> SellPriceValidator(d.status.value, d.sellPrice)
  {
    SellPriceMessagesIff(d);
  }
}
