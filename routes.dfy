/** The write handlers of backend/routes/bucket.route.js over an in-memory
    store of buckets: create a bucket, add a trade to a bucket, update a
    trade of a bucket. Each returns a tagged outcome instead of an HTTP
    response. */
module BucketRoutes {
  import opened Wrappers
  import opened Trading
  import opened Buckets
  import opened TradeValidation

  type BucketId = nat

  // ---------------------------------------------------------------------
  // Per-trade error aggregation of the create handler

  function DigitChar(n: nat): char
    requires n < 10
  {
    ('0' as int + n) as char
  }

  predicate IsDigit(c: char)
  {
    '0' <= c <= '9'
  }

  /** Reference reading of a decimal numeral: the number its digits denote. */
  function DigitsValue(s: string): nat
    requires forall i :: 0 <= i < |s| ==> IsDigit(s[i])
    decreases |s|
  {
    if s == [] then 0
    else
      var last := s[|s| - 1];
      assert IsDigit(last);
      DigitsValue(s[..|s| - 1]) * 10 + (last as int - '0' as int)
  }

  /** `${index}` for a non-negative integer: its decimal digits, with no
      leading zero. */
  function NatToString(n: nat): (s: string)
    ensures |s| >= 1
    ensures forall i :: 0 <= i < |s| ==> IsDigit(s[i])
    ensures s[0] == '0' ==> n == 0
    decreases n
  {
    if n < 10 then [DigitChar(n)] else NatToString(n / 10) + [DigitChar(n % 10)]
  }

  /** Reading the numeral back gives the number. */
  lemma {:induction false} NatToStringRoundTrip(n: nat)
    ensures DigitsValue(NatToString(n)) == n
    decreases n
  {
    if n >= 10 {
      var s := NatToString(n);
      assert s[..|s| - 1] == NatToString(n / 10);
      NatToStringRoundTrip(n / 10);
    }
  }

  /** Distinct trade indices are written differently. */
  lemma NatToStringInjective(m: nat, n: nat)
    ensures NatToString(m) == NatToString(n) ==> m == n
  {
    NatToStringRoundTrip(m);
    NatToStringRoundTrip(n);
  }

  /** `parts.join(sep)` */
  function Join(parts: seq<string>, sep: string): string
    decreases |parts|
  {
    if |parts| == 0 then ""
    else if |parts| == 1 then parts[0]
    else parts[0] + sep + Join(parts[1..], sep)
  }

  /** The entry a failing trade contributes: `Trade ${index}: ${errors.join(", ")}` */
  function TradeEntry(index: nat, errors: seq<string>): string
  {
    "Trade " + NatToString(index) + ": " + Join(errors, ", ")
  }

  /** The validation messages of each trade, by index. */
  function ErrorLists(trades: seq<TradeData>): (errs: seq<seq<string>>)
    ensures |errs| == |trades|
  {
    seq(|trades|, i requires 0 <= i < |trades| => ValidateTradeData(trades[i]))
  }

  /** The entries recorded for a sequence of per-trade message lists, in index
      order: one for each non-empty list. */
  function Entries(errs: seq<seq<string>>): seq<string>
    decreases |errs|
  {
    if errs == [] then []
    else
      var i := |errs| - 1;
      Entries(errs[..i]) + (if errs[i] == [] then [] else [TradeEntry(i, errs[i])])
  }

  /** The indices of the non-empty lists, in increasing order. */
  function Failing(errs: seq<seq<string>>): seq<nat>
    decreases |errs|
  {
    if errs == [] then []
    else
      var i := |errs| - 1;
      Failing(errs[..i]) + (if errs[i] == [] then [] else [i])
  }

  /** `tradeErrors` once the forEach has visited every trade. */
  function TradeListErrors(trades: seq<TradeData>): seq<string>
  {
    Entries(ErrorLists(trades))
  }

  /** The indices of the trades that fail validation. */
  function FailingIndices(trades: seq<TradeData>): seq<nat>
  {
    Failing(ErrorLists(trades))
  }

  lemma {:induction false} FailingExact(errs: seq<seq<string>>)
    ensures forall k :: k in Failing(errs) <==> 0 <= k < |errs| && errs[k] != []
    ensures forall a, b :: 0 <= a < b < |Failing(errs)| ==> Failing(errs)[a] < Failing(errs)[b]
    decreases |errs|
  {
    if errs != [] {
      var i := |errs| - 1;
      FailingExact(errs[..i]);
      assert forall k :: 0 <= k < i ==> errs[..i][k] == errs[k];
      var before := Failing(errs[..i]);
      assert forall a :: 0 <= a < |before| ==> before[a] in before;
      assert forall a :: 0 <= a < |before| ==> before[a] < i;
    }
  }

  lemma {:induction false} EntriesIndexed(errs: seq<seq<string>>)
    ensures |Entries(errs)| == |Failing(errs)|
    ensures forall j :: 0 <= j < |Failing(errs)| ==>
      Failing(errs)[j] < |errs| && Entries(errs)[j] == TradeEntry(Failing(errs)[j], errs[Failing(errs)[j]])
    decreases |errs|
  {
    if errs != [] {
      var i := |errs| - 1;
      var prefix := errs[..i];
      EntriesIndexed(prefix);
      assert forall k :: 0 <= k < i ==> prefix[k] == errs[k];
      var entries, failing := Entries(prefix), Failing(prefix);
      if errs[i] == [] {
        assert Entries(errs) == entries && Failing(errs) == failing;
      } else {
        assert Entries(errs) == entries + [TradeEntry(i, errs[i])];
        assert Failing(errs) == failing + [i];
      }
    }
  }

  /** FailingIndices lists exactly the failing trades, each once, in
      increasing order. */
  lemma FailingIndicesExact(trades: seq<TradeData>)
    ensures forall k :: k in FailingIndices(trades) <==> 0 <= k < |trades| && ValidateTradeData(trades[k]) != []
    ensures forall a, b :: 0 <= a < b < |FailingIndices(trades)| ==> FailingIndices(trades)[a] < FailingIndices(trades)[b]
  {
    FailingExact(ErrorLists(trades));
  }

  /** Each failing trade contributes exactly one entry, "Trade i: " and its
      messages joined with ", ", in index order; passing trades contribute
      nothing. */
  lemma TradeListErrorsIndexed(trades: seq<TradeData>)
    ensures |TradeListErrors(trades)| == |FailingIndices(trades)|
    ensures forall j :: 0 <= j < |FailingIndices(trades)| ==>
      FailingIndices(trades)[j] < |trades|
      && TradeListErrors(trades)[j]
         == TradeEntry(FailingIndices(trades)[j], ValidateTradeData(trades[FailingIndices(trades)[j]]))
  {
    EntriesIndexed(ErrorLists(trades));
  }

  /** The aggregated list is empty iff every trade passes validation. */
  lemma TradeListErrorsEmptyIff(trades: seq<TradeData>)
    ensures TradeListErrors(trades) == [] <==> forall i :: 0 <= i < |trades| ==> ValidateTradeData(trades[i]) == []
  {
    TradeListErrorsIndexed(trades);
    FailingIndicesExact(trades);
    if TradeListErrors(trades) != [] {
      assert FailingIndices(trades)[0] in FailingIndices(trades);
    }
  }

  /** Visiting one more trade appends at most its own entry. */
  lemma EntriesExtend(errs: seq<seq<string>>, index: nat)
    requires index < |errs|
    ensures Entries(errs[..index + 1])
         == Entries(errs[..index]) + (if errs[index] == [] then [] else [TradeEntry(index, errs[index])])
  {
    assert errs[..index + 1][..index] == errs[..index];
  }

  /** The create handler's forEach: validate each trade and record an entry
      for every one that fails. */
  method CollectTradeErrors(trades: seq<TradeData>) returns (tradeErrors: seq<string>)
    ensures tradeErrors == TradeListErrors(trades)
  {
    ghost var errs := ErrorLists(trades);
    tradeErrors := [];
    var index := 0;
    while index < |trades|
      invariant 0 <= index <= |trades|
      invariant tradeErrors == Entries(errs[..index])
    {
      var errors := ValidateTradeData(trades[index]);
      EntriesExtend(errs, index);
      if |errors| > 0 {
        tradeErrors := tradeErrors + [TradeEntry(index, errors)];
      }
      index := index + 1;
    }
    assert errs[..|trades|] == errs;
  }

  // ---------------------------------------------------------------------
  // From payloads to trade documents

  /** A payload that passed validateTradeData has every required field. */
  lemma ValidPayloadIsComplete(d: TradeData)
    requires ValidateTradeData(d) == []
    ensures RequiredPresent(d)
  {
    ValidateTradeDataEmptyIff(d);
  }

  /** A fresh trade sub-document cast from a payload: the payload's fields,
      sellPrice defaulting to null, profitAndLoss defaulting to 0. */
  function MakeTrade(id: TradeId, d: TradeData): (t: Trade)
    requires RequiredPresent(d)
    ensures t.id == id && FromPayload(t, d) && t.profitAndLoss == 0.0
  {
    Trade(id, d.instrument.value, d.qty.value, d.avg.value, d.ltp.value, d.status.value, d.sellPrice, 0.0)
  }

  /** The trade holds the payload's user-supplied fields. */
  predicate FromPayload(t: Trade, d: TradeData)
  {
    && d.instrument == Some(t.instrument)
    && d.qty == Some(t.qty)
    && d.avg == Some(t.avg)
    && d.ltp == Some(t.ltp)
    && d.status == Some(t.status)
    && d.sellPrice == t.sellPrice
  }

  /** A payload the route accepts is stored iff its instrument and status are
      non-empty: an empty status passes validateTradeData but not the
      schema's required and enum checks. */
  predicate Storable(d: TradeData)
  {
    Truthy(d.instrument) && Truthy(d.status)
  }

  lemma ValidPayloadSchemaIff(id: TradeId, d: TradeData)
    requires ValidateTradeData(d) == []
    ensures RequiredPresent(d)
    ensures TradeSchemaValid(MakeTrade(id, d)) <==> Storable(d)
    ensures FromPayload(MakeTrade(id, d), d)
  {
    ValidateTradeDataEmptyIff(d);
  }

  /** The new trade documents of `new Bucket({ name, trades })`, with
      consecutive ids. */
  function MakeTrades(firstId: TradeId, ds: seq<TradeData>): (ts: seq<Trade>)
    requires forall i :: 0 <= i < |ds| ==> RequiredPresent(ds[i])
    ensures |ts| == |ds|
    ensures forall i :: 0 <= i < |ds| ==> ts[i] == MakeTrade(firstId + i, ds[i])
  {
    seq(|ds|, i requires 0 <= i < |ds| && RequiredPresent(ds[i]) => MakeTrade(firstId + i, ds[i]))
  }

  /** The update handler's six assignments: the payload's fields, with
      sellPrice forced to null when the new status is "open". A required
      field left unset makes the save fail, so that case returns None. */
  function Overwrite(t: Trade, d: TradeData): (r: Option<Trade>)
    ensures r.Some? <==> RequiredPresent(d)
  {
    if !RequiredPresent(d) then None
    else Some(t.(instrument := d.instrument.value, qty := d.qty.value, avg := d.avg.value,
                 ltp := d.ltp.value, status := d.status.value,
                 sellPrice := if d.status.value == Open then None else d.sellPrice))
  }

  /** What an accepted update leaves in the trade. */
  predicate OverwrittenFrom(after: Trade, before: Trade, d: TradeData)
  {
    && after.id == before.id
    && d.instrument == Some(after.instrument)
    && d.qty == Some(after.qty)
    && d.avg == Some(after.avg)
    && d.ltp == Some(after.ltp)
    && d.status == Some(after.status)
    && after.sellPrice == (if after.status == Open then None else d.sellPrice)
  }

  /** The update payloads the schema accepts; validateTradeData is not run on
      this path, so an open trade may come with a sellPrice (it is dropped). */
  predicate UpdateAccepted(d: TradeData)
  {
    && RequiredPresent(d)
    && d.instrument.value != ""
    && (d.status.value == Open || (d.status.value == Closed && d.sellPrice.Some?))
  }

  lemma OverwriteSchemaIff(t: Trade, d: TradeData)
    requires RequiredPresent(d)
    ensures TradeSchemaValid(Overwrite(t, d).value) <==> UpdateAccepted(d)
    ensures OverwrittenFrom(Overwrite(t, d).value, t, d)
  {
  }

  /** An update the route-level validator would reject goes through: the
      update handler never calls validateTradeData. */
  lemma UpdateSkipsRouteValidation()
    ensures exists d :: UpdateAccepted(d) && ValidateTradeData(d) != []
  {
    var d := TradeData(Some("AAPL"), Some(10.0), Some(150.0), Some(160.0), Some(Open), Some(170.0));
    SellPriceMessagesIff(d);
    assert UpdateAccepted(d) && ValidateTradeData(d) != [];
  }

  /** `bucket.trades.id(tradeId)`: the first trade with that id. */
  function FindTrade(trades: seq<Trade>, id: TradeId): (r: Option<nat>)
    ensures r.Some? ==> r.value < |trades| && trades[r.value].id == id
    ensures r.Some? ==> forall j :: 0 <= j < r.value ==> trades[j].id != id
    ensures r.None? <==> forall j :: 0 <= j < |trades| ==> trades[j].id != id
    decreases |trades|
  {
    if trades == [] then None
    else if trades[0].id == id then Some(0)
    else
      match FindTrade(trades[1..], id)
      case None => None
      case Some(k) => Some(k + 1)
  }

  // ---------------------------------------------------------------------
  // The store

  /** What a handler reports, in place of an HTTP status and JSON body. */
  datatype Outcome =
    | Ok(id: BucketId, bucket: Bucket)
    | NameRequired
    | ValidationErrors(errors: seq<string>)
    | BucketNotFound
    | TradeNotFound
    | DuplicateName
    | SaveFailed(error: SaveError)

  /** The unique index on name. */
  predicate UniqueNames(buckets: map<BucketId, Bucket>)
  {
    forall i, j :: i in buckets && j in buckets && buckets[i].name == buckets[j].name ==> i == j
  }

  predicate NameTaken(buckets: map<BucketId, Bucket>, name: string)
  {
    exists i :: i in buckets && buckets[i].name == name
  }

  predicate TradeIdsBelow(trades: seq<Trade>, bound: nat)
  {
    forall i :: 0 <= i < |trades| ==> trades[i].id < bound
  }

  predicate DistinctTradeIds(trades: seq<Trade>)
  {
    forall i, j :: 0 <= i < j < |trades| ==> trades[i].id != trades[j].id
  }

  /** The store's invariant on values: bucket ids are below the bucket id
      generator, names are unique, every bucket is as a save leaves it, and
      its trade ids are unique and below the trade id generator. */
  ghost predicate StoreInvariant(buckets: map<BucketId, Bucket>, nextBucketId: BucketId, nextTradeId: TradeId)
  {
    && (forall id :: id in buckets ==> id < nextBucketId)
    && UniqueNames(buckets)
    && (forall id :: id in buckets ==>
          && Persisted(buckets[id])
          && TradeIdsBelow(buckets[id].trades, nextTradeId)
          && DistinctTradeIds(buckets[id].trades))
  }

  /** Inserting a stored bucket under a fresh id and an unused name keeps the
      invariant. */
  lemma InsertKeepsInvariant(buckets: map<BucketId, Bucket>, nextBucketId: BucketId, nextTradeId: TradeId,
                             b: Bucket, nextTradeId': TradeId)
    requires StoreInvariant(buckets, nextBucketId, nextTradeId)
    requires !NameTaken(buckets, b.name)
    requires Persisted(b) && TradeIdsBelow(b.trades, nextTradeId') && DistinctTradeIds(b.trades)
    requires nextTradeId <= nextTradeId'
    ensures nextBucketId !in buckets
    ensures StoreInvariant(buckets[nextBucketId := b], nextBucketId + 1, nextTradeId')
  {
  }

  /** Replacing a bucket by a stored bucket of the same name keeps the
      invariant. */
  lemma ReplaceKeepsInvariant(buckets: map<BucketId, Bucket>, nextBucketId: BucketId, nextTradeId: TradeId,
                              id: BucketId, b: Bucket, nextTradeId': TradeId)
    requires StoreInvariant(buckets, nextBucketId, nextTradeId)
    requires id in buckets && b.name == buckets[id].name
    requires Persisted(b) && TradeIdsBelow(b.trades, nextTradeId') && DistinctTradeIds(b.trades)
    requires nextTradeId <= nextTradeId'
    ensures StoreInvariant(buckets[id := b], nextBucketId, nextTradeId')
  {
  }

  /** A save keeps every trade's id. */
  lemma SavedKeepsIds(b: Bucket, s: Bucket)
    requires SavedFrom(b, s)
    ensures |s.trades| == |b.trades|
    ensures forall i :: 0 <= i < |b.trades| ==> s.trades[i].id == b.trades[i].id
  {
    forall i | 0 <= i < |b.trades|
      ensures s.trades[i].id == b.trades[i].id
    {
      assert s.trades[i] == b.trades[i].(profitAndLoss := s.trades[i].profitAndLoss);
    }
  }

  /** The bucket built by the create handler from validated payloads passes
      the schema iff its name is non-empty and every payload is storable. */
  lemma CreateDocSchemaIff(name: string, firstId: TradeId, trades: seq<TradeData>)
    requires TradeListErrors(trades) == []
    ensures forall i :: 0 <= i < |trades| ==> RequiredPresent(trades[i])
    ensures BucketSchemaValid(Bucket(name, MakeTrades(firstId, trades), 0.0))
            <==> name != "" && forall i :: 0 <= i < |trades| ==> Storable(trades[i])
  {
    TradeListErrorsEmptyIff(trades);
    forall i | 0 <= i < |trades|
      ensures RequiredPresent(trades[i])
      ensures TradeSchemaValid(MakeTrade(firstId + i, trades[i])) <==> Storable(trades[i])
    {
      ValidPayloadSchemaIff(firstId + i, trades[i]);
    }
  }

  /** What saving that bucket stores: the payloads' fields under consecutive
      fresh ids, each derived. */
  lemma CreateSavedContents(firstId: TradeId, trades: seq<TradeData>, doc: Bucket, s: Bucket)
    requires forall i :: 0 <= i < |trades| ==> RequiredPresent(trades[i])
    requires doc.trades == MakeTrades(firstId, trades)
    requires SavedFrom(doc, s)
    ensures |s.trades| == |trades|
    ensures forall i :: 0 <= i < |trades| ==>
      s.trades[i].id == firstId + i && FromPayload(s.trades[i], trades[i]) && Derived(s.trades[i])
    ensures TradeIdsBelow(s.trades, firstId + |trades|)
    ensures DistinctTradeIds(s.trades)
  {
    forall i | 0 <= i < |trades|
      ensures s.trades[i].id == firstId + i && FromPayload(s.trades[i], trades[i]) && Derived(s.trades[i])
    {
      assert s.trades[i] == doc.trades[i].(profitAndLoss := s.trades[i].profitAndLoss);
    }
  }

  /** The ids of the bucket built by the create handler are consecutive from
      the first fresh id. */
  lemma MakeTradesIds(firstId: TradeId, trades: seq<TradeData>)
    requires forall i :: 0 <= i < |trades| ==> RequiredPresent(trades[i])
    ensures TradeIdsBelow(MakeTrades(firstId, trades), firstId + |trades|)
    ensures DistinctTradeIds(MakeTrades(firstId, trades))
  {
  }

  /** Appending a trade under a fresh id keeps ids unique. */
  lemma AppendKeepsIds(trades: seq<Trade>, t: Trade)
    requires TradeIdsBelow(trades, t.id) && DistinctTradeIds(trades)
    ensures TradeIdsBelow(trades + [t], t.id + 1) && DistinctTradeIds(trades + [t])
  {
  }

  /** Replacing a trade by one with the same id keeps ids unique. */
  lemma ReplaceKeepsIds(trades: seq<Trade>, k: nat, t: Trade, bound: TradeId)
    requires k < |trades| && t.id == trades[k].id
    requires TradeIdsBelow(trades, bound) && DistinctTradeIds(trades)
    ensures TradeIdsBelow(trades[k := t], bound) && DistinctTradeIds(trades[k := t])
  {
  }

  /** Saving a stored bucket with a validated payload appended: it is stored
      iff the payload is storable, and then the old trades are untouched, the
      new one holds the payload's fields under the fresh id, derived, and the
      total grows by its P&L. */
  lemma AppendSaved(b: Bucket, id: TradeId, d: TradeData)
    requires Persisted(b)
    requires ValidateTradeData(d) == []
    ensures RequiredPresent(d)
    ensures SaveBucket(b.(trades := b.trades + [MakeTrade(id, d)])).Success? <==> Storable(d)
    ensures SaveBucket(b.(trades := b.trades + [MakeTrade(id, d)])).Failure? ==>
            SaveBucket(b.(trades := b.trades + [MakeTrade(id, d)])).error == SchemaErr
    ensures SaveBucket(b.(trades := b.trades + [MakeTrade(id, d)])).Success? ==>
      var s := SaveBucket(b.(trades := b.trades + [MakeTrade(id, d)])).value;
      var n := |b.trades|;
      && s.name == b.name
      && |s.trades| == n + 1
      && s.trades[..n] == b.trades
      && s.trades[n].id == id
      && FromPayload(s.trades[n], d)
      && Derived(s.trades[n])
      && s.totalProfitAndLoss == b.totalProfitAndLoss + s.trades[n].profitAndLoss
  {
    ValidPayloadSchemaIff(id, d);
    var t := MakeTrade(id, d);
    var doc := b.(trades := b.trades + [t]);
    SaveAfterAppend(b, t);
    SaveNeverFailsInHook(doc);
    if TradeSchemaValid(t) {
      var s := SaveBucket(doc).value;
      var n := |b.trades|;
      assert s.trades[..n] == b.trades;
      assert s.trades[n] == TradePreSave(t).value;
    }
  }

  /** Saving a stored bucket with the trade at k overwritten from a payload:
      it is stored iff the schema accepts the overwritten trade, and then every
      other trade is untouched, the trade at k holds the payload's fields,
      derived, and the total moves by the difference of the two P&L values. */
  lemma ReplaceSaved(b: Bucket, k: nat, d: TradeData)
    requires Persisted(b)
    requires k < |b.trades| && RequiredPresent(d)
    ensures SaveBucket(b.(trades := b.trades[k := Overwrite(b.trades[k], d).value])).Success?
            <==> UpdateAccepted(d)
    ensures SaveBucket(b.(trades := b.trades[k := Overwrite(b.trades[k], d).value])).Failure? ==>
            SaveBucket(b.(trades := b.trades[k := Overwrite(b.trades[k], d).value])).error == SchemaErr
    ensures SaveBucket(b.(trades := b.trades[k := Overwrite(b.trades[k], d).value])).Success? ==>
      var s := SaveBucket(b.(trades := b.trades[k := Overwrite(b.trades[k], d).value])).value;
      && s.name == b.name
      && |s.trades| == |b.trades|
      && (forall j :: 0 <= j < |b.trades| && j != k ==> s.trades[j] == b.trades[j])
      && OverwrittenFrom(s.trades[k], b.trades[k], d)
      && Derived(s.trades[k])
      && s.totalProfitAndLoss == b.totalProfitAndLoss - b.trades[k].profitAndLoss + s.trades[k].profitAndLoss
  {
    OverwriteSchemaIff(b.trades[k], d);
    var t := Overwrite(b.trades[k], d).value;
    var doc := b.(trades := b.trades[k := t]);
    SaveAfterReplace(b, k, t);
    SaveNeverFailsInHook(doc);
    if TradeSchemaValid(t) {
      var s := SaveBucket(doc).value;
      assert s.trades[k] == TradePreSave(t).value;
      assert forall j :: 0 <= j < |b.trades| && j != k ==> s.trades[j] == b.trades[j];
    }
  }

  /** The bucket collection together with the id generators that stand in
      for ObjectId creation. */
  class BucketStore {
    var buckets: map<BucketId, Bucket>
    var nextBucketId: BucketId
    var nextTradeId: TradeId

    ghost predicate Valid()
      reads this
    {
      StoreInvariant(buckets, nextBucketId, nextTradeId)
    }

    constructor ()
      ensures Valid()
      ensures buckets == map[] && nextBucketId == 0 && nextTradeId == 0
    {
      buckets := map[];
      nextBucketId := 0;
      nextTradeId := 0;
    }

    /** `save()` of a new bucket document whose trades took `newTradeIds`
        fresh ids: validation and the pre-save hooks, then the unique index
        on name at insertion under a fresh bucket id. */
    method SaveNew(doc: Bucket, newTradeIds: nat) returns (r: Outcome)
      requires Valid()
      requires TradeIdsBelow(doc.trades, nextTradeId + newTradeIds) && DistinctTradeIds(doc.trades)
      modifies this
      ensures Valid()
      ensures SaveBucket(doc).Failure? ==> r == SaveFailed(SaveBucket(doc).error)
      ensures SaveBucket(doc).Success? && NameTaken(old(buckets), doc.name) ==> r == DuplicateName
      ensures SaveBucket(doc).Success? && !NameTaken(old(buckets), doc.name) ==>
        && r == Ok(old(nextBucketId), SaveBucket(doc).value)
        && old(nextBucketId) !in old(buckets)
        && buckets == old(buckets)[old(nextBucketId) := SaveBucket(doc).value]
        && nextBucketId == old(nextBucketId) + 1
        && nextTradeId == old(nextTradeId) + newTradeIds
      ensures !r.Ok? ==> unchanged(this)
    {
      var saved := SaveBucket(doc);
      if saved.Failure? {
        return SaveFailed(saved.error);
      }
      if NameTaken(buckets, doc.name) {
        return DuplicateName;
      }
      SaveBucketIdempotent(doc);
      SavedKeepsIds(doc, saved.value);
      InsertKeepsInvariant(buckets, nextBucketId, nextTradeId, saved.value, nextTradeId + newTradeIds);
      var id := nextBucketId;
      buckets := buckets[id := saved.value];
      nextBucketId := nextBucketId + 1;
      nextTradeId := nextTradeId + newTradeIds;
      r := Ok(id, saved.value);
    }

    /** `save()` of a stored bucket's edited document, keeping its name; its
        trades took `newTradeIds` fresh ids. */
    method SaveExisting(bucketId: BucketId, doc: Bucket, newTradeIds: nat) returns (r: Outcome)
      requires Valid()
      requires bucketId in buckets && doc.name == buckets[bucketId].name
      requires TradeIdsBelow(doc.trades, nextTradeId + newTradeIds) && DistinctTradeIds(doc.trades)
      modifies this
      ensures Valid()
      ensures SaveBucket(doc).Failure? ==> r == SaveFailed(SaveBucket(doc).error)
      ensures SaveBucket(doc).Success? ==>
        && r == Ok(bucketId, SaveBucket(doc).value)
        && buckets == old(buckets)[bucketId := SaveBucket(doc).value]
        && nextBucketId == old(nextBucketId)
        && nextTradeId == old(nextTradeId) + newTradeIds
      ensures !r.Ok? ==> unchanged(this)
    {
      var saved := SaveBucket(doc);
      if saved.Failure? {
        return SaveFailed(saved.error);
      }
      SaveBucketIdempotent(doc);
      SavedKeepsIds(doc, saved.value);
      ReplaceKeepsInvariant(buckets, nextBucketId, nextTradeId, bucketId, saved.value, nextTradeId + newTradeIds);
      buckets := buckets[bucketId := saved.value];
      nextTradeId := nextTradeId + newTradeIds;
      r := Ok(bucketId, saved.value);
    }

    /** POST / */
    method CreateBucket(name: Option<string>, trades: seq<TradeData>) returns (r: Outcome)
      requires Valid()
      modifies this
      ensures Valid()
      ensures !Truthy(name) ==> r == NameRequired
      ensures Truthy(name) && TradeListErrors(trades) != [] ==> r == ValidationErrors(TradeListErrors(trades))
      ensures Truthy(name) && TradeListErrors(trades) == [] ==>
        if exists i :: 0 <= i < |trades| && !Storable(trades[i]) then r == SaveFailed(SchemaErr)
        else if NameTaken(old(buckets), name.value) then r == DuplicateName
        else r.Ok?
      ensures r.Ok? ==>
        && r.id == old(nextBucketId) && r.id !in old(buckets)
        && buckets == old(buckets)[r.id := r.bucket]
        && nextBucketId == old(nextBucketId) + 1
        && nextTradeId == old(nextTradeId) + |trades|
        && r.bucket.name == name.value
        && |r.bucket.trades| == |trades|
        && (forall i :: 0 <= i < |trades| ==>
              && r.bucket.trades[i].id == old(nextTradeId) + i
              && FromPayload(r.bucket.trades[i], trades[i])
              && Derived(r.bucket.trades[i]))
        && r.bucket.totalProfitAndLoss == TotalOf(r.bucket.trades)
      ensures !r.Ok? ==> unchanged(this)
    {
      if !Truthy(name) {
        return NameRequired;
      }
      if |trades| > 0 {
        var tradeErrors := CollectTradeErrors(trades);
        if |tradeErrors| > 0 {
          return ValidationErrors(tradeErrors);
        }
      }
      CreateDocSchemaIff(name.value, nextTradeId, trades);
      MakeTradesIds(nextTradeId, trades);
      ghost var firstId := nextTradeId;
      var doc := Bucket(name.value, MakeTrades(nextTradeId, trades), 0.0);
      SaveNeverFailsInHook(doc);
      r := SaveNew(doc, |trades|);
      if r.Ok? {
        CreateSavedContents(firstId, trades, doc, r.bucket);
      }
    }

    /** POST /:bucketId/trades */
    method AddTrade(bucketId: BucketId, data: TradeData) returns (r: Outcome)
      requires Valid()
      modifies this
      ensures Valid()
      ensures ValidateTradeData(data) != [] ==> r == ValidationErrors(ValidateTradeData(data))
      ensures ValidateTradeData(data) == [] && bucketId !in old(buckets) ==> r == BucketNotFound
      ensures ValidateTradeData(data) == [] && bucketId in old(buckets) ==>
        if Storable(data) then r.Ok? else r == SaveFailed(SchemaErr)
      ensures r.Ok? ==>
        var before := old(buckets)[bucketId];
        var n := |before.trades|;
        && bucketId in old(buckets)
        && r.id == bucketId
        && buckets == old(buckets)[bucketId := r.bucket]
        && nextBucketId == old(nextBucketId)
        && nextTradeId == old(nextTradeId) + 1
        && r.bucket.name == before.name
        && |r.bucket.trades| == n + 1
        && r.bucket.trades[..n] == before.trades
        && r.bucket.trades[n].id == old(nextTradeId)
        && FromPayload(r.bucket.trades[n], data)
        && Derived(r.bucket.trades[n])
        && r.bucket.totalProfitAndLoss == before.totalProfitAndLoss + r.bucket.trades[n].profitAndLoss
      ensures !r.Ok? ==> unchanged(this)
    {
      var tradeErrors := ValidateTradeData(data);
      if |tradeErrors| > 0 {
        return ValidationErrors(tradeErrors);
      }
      if bucketId !in buckets {
        return BucketNotFound;
      }
      var bucket := buckets[bucketId];
      AppendSaved(bucket, nextTradeId, data);
      var trade := MakeTrade(nextTradeId, data);
      AppendKeepsIds(bucket.trades, trade);
      r := SaveExisting(bucketId, bucket.(trades := bucket.trades + [trade]), 1);
    }

    /** PUT /:bucketId/trades/:tradeId */
    method UpdateTrade(bucketId: BucketId, tradeId: TradeId, data: TradeData) returns (r: Outcome)
      requires Valid()
      modifies this
      ensures Valid()
      ensures bucketId !in old(buckets) ==> r == BucketNotFound
      ensures bucketId in old(buckets) && FindTrade(old(buckets)[bucketId].trades, tradeId).None? ==>
        r == TradeNotFound
      ensures bucketId in old(buckets) && FindTrade(old(buckets)[bucketId].trades, tradeId).Some? ==>
        if UpdateAccepted(data) then r.Ok? else r == SaveFailed(SchemaErr)
      ensures r.Ok? ==>
        var before := old(buckets)[bucketId];
        var k := FindTrade(before.trades, tradeId).value;
        && bucketId in old(buckets)
        && r.id == bucketId
        && buckets == old(buckets)[bucketId := r.bucket]
        && nextBucketId == old(nextBucketId) && nextTradeId == old(nextTradeId)
        && r.bucket.name == before.name
        && |r.bucket.trades| == |before.trades|
        && (forall j :: 0 <= j < |before.trades| && j != k ==> r.bucket.trades[j] == before.trades[j])
        && OverwrittenFrom(r.bucket.trades[k], before.trades[k], data)
        && Derived(r.bucket.trades[k])
        && r.bucket.totalProfitAndLoss
           == before.totalProfitAndLoss - before.trades[k].profitAndLoss + r.bucket.trades[k].profitAndLoss
      ensures !r.Ok? ==> unchanged(this)
    {
      if bucketId !in buckets {
        return BucketNotFound;
      }
      var bucket := buckets[bucketId];
      var found := FindTrade(bucket.trades, tradeId);
      if found.None? {
        return TradeNotFound;
      }
      var k := found.value;
      var updated := Overwrite(bucket.trades[k], data);
      if updated.None? {
        return SaveFailed(SchemaErr);
      }
      ReplaceSaved(bucket, k, data);
      ReplaceKeepsIds(bucket.trades, k, updated.value, nextTradeId);
      r := SaveExisting(bucketId, bucket.(trades := bucket.trades[k := updated.value]), 0);
    }
  }
}
