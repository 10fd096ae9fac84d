/** The bucket document of backend/models/bucket.model.js: a named list of
    embedded trades with a derived total, its pre-save hook, and what a save
    of the whole document does (validation, then the trades' hooks, then the
    bucket's hook). */
module Buckets {
  import opened Wrappers
  import opened Trading

  datatype Bucket = Bucket(name: string, trades: seq<Trade>, totalProfitAndLoss: real)

  /** `trades.reduce((sum, trade) => sum + trade.profitAndLoss, sum)`: a left
      fold in array order. */
  function FoldPnl(sum: real, trades: seq<Trade>): real
    decreases |trades|
  {
    if trades == [] then sum else FoldPnl(sum + trades[0].profitAndLoss, trades[1..])
  }

  /** Reference definition: the arithmetic sum of the trades' profitAndLoss. */
  function TotalOf(trades: seq<Trade>): real
    decreases |trades|
  {
    if trades == [] then 0.0 else trades[0].profitAndLoss + TotalOf(trades[1..])
  }

  lemma {:induction false} FoldPnlIsSum(sum: real, trades: seq<Trade>)
    ensures FoldPnl(sum, trades) == sum + TotalOf(trades)
    decreases |trades|
  {
    if trades != [] {
      FoldPnlIsSum(sum + trades[0].profitAndLoss, trades[1..]);
    }
  }

  /** Appending a trade moves the fold by exactly that trade's P&L. */
  lemma {:induction false} FoldPnlAppend(sum: real, trades: seq<Trade>, t: Trade)
    ensures FoldPnl(sum, trades + [t]) == FoldPnl(sum, trades) + t.profitAndLoss
    decreases |trades|
  {
    if trades == [] {
      assert trades + [t] == [t];
      assert [t][1..] == [];
    } else {
      assert (trades + [t])[1..] == trades[1..] + [t];
      FoldPnlAppend(sum + trades[0].profitAndLoss, trades[1..], t);
    }
  }

  /** Replacing the trade at k changes the sum by the difference of the two
      P&L values. */
  lemma {:induction false} TotalOfUpdate(trades: seq<Trade>, k: nat, t: Trade)
    requires k < |trades|
    ensures TotalOf(trades[k := t]) == TotalOf(trades) - trades[k].profitAndLoss + t.profitAndLoss
    decreases |trades|
  {
    if k > 0 {
      assert trades[k := t][1..] == trades[1..][k - 1 := t];
      TotalOfUpdate(trades[1..], k - 1, t);
    } else {
      assert trades[k := t][1..] == trades[1..];
    }
  }

  /** The pre-save hook: it assigns totalProfitAndLoss the sum of the trades
      and leaves name and trades as they are. */
  function BucketPreSave(b: Bucket): (r: Bucket)
    ensures r.name == b.name && r.trades == b.trades
    ensures r.totalProfitAndLoss == TotalOf(b.trades)
  {
    FoldPnlIsSum(0.0, b.trades);
    b.(totalProfitAndLoss := FoldPnl(0.0, b.trades))
  }

  /** A bucket without trades totals zero. */
  lemma EmptyBucketTotal(b: Bucket)
    requires b.trades == []
    ensures BucketPreSave(b).totalProfitAndLoss == 0.0
  {
  }

  /** The total is recomputed in full: it does not depend on the previous
      total, so running the hook twice gives the same bucket. */
  lemma BucketPreSaveIgnoresOldTotal(b: Bucket, previous: real)
    ensures BucketPreSave(b.(totalProfitAndLoss := previous)) == BucketPreSave(b)
    ensures BucketPreSave(BucketPreSave(b)) == BucketPreSave(b)
  {
  }

  /** Runs every trade's pre-save hook in array order; the first failure
      aborts the save. */
  function RunTradeHooks(trades: seq<Trade>): (r: Result<seq<Trade>, string>)
    ensures r.Failure? <==> exists i :: 0 <= i < |trades| && TradePreSave(trades[i]).Failure?
    ensures r.Success? ==>
      && |r.value| == |trades|
      && forall i :: 0 <= i < |trades| ==> TradePreSave(trades[i]) == Success(r.value[i])
    decreases |trades|
  {
    if trades == [] then Success([])
    else
      match TradePreSave(trades[0])
      case Failure(m) => Failure(m)
      case Success(t) =>
        match RunTradeHooks(trades[1..])
        case Failure(m) =>
          var j :| 0 <= j < |trades[1..]| && TradePreSave(trades[1..][j]).Failure?;
          assert TradePreSave(trades[j + 1]).Failure?;
          Failure(m)
        case Success(rest) =>
          assert forall i :: 1 <= i < |trades| ==> trades[i] == trades[1..][i - 1];
          Success([t] + rest)
  }

  /** What Mongoose's validation demands of the whole document: the required
      name is non-empty and every trade is schema-valid. */
  predicate BucketSchemaValid(b: Bucket)
  {
    b.name != "" && forall i :: 0 <= i < |b.trades| ==> TradeSchemaValid(b.trades[i])
  }

  /** Why a save is rejected: a schema validation error, or an error raised by
      a trade's pre-save hook. */
  datatype SaveError = SchemaErr | DerivationErr(message: string)

  /** `s` is what saving `b` stores: same name, same trades except for their
      derived profitAndLoss, and the total of those. */
  predicate SavedFrom(b: Bucket, s: Bucket)
  {
    && s.name == b.name
    && |s.trades| == |b.trades|
    && (forall i :: 0 <= i < |b.trades| ==>
          s.trades[i] == b.trades[i].(profitAndLoss := s.trades[i].profitAndLoss)
          && Derived(s.trades[i]))
    && s.totalProfitAndLoss == TotalOf(s.trades)
  }

  /** `bucket.save()`: validation first, then each trade's pre-save hook
      (sub-documents before their parent), then the bucket's hook, so the
      total always sees freshly derived trade values. */
  function SaveBucket(b: Bucket): (r: Result<Bucket, SaveError>)
    ensures r.Success? <==> BucketSchemaValid(b)
    ensures r.Success? ==> SavedFrom(b, r.value)
  {
    if !BucketSchemaValid(b) then Failure(SchemaErr)
    else
      SchemaValidTradesRun(b.trades);
      match RunTradeHooks(b.trades)
      case Failure(m) => Failure(DerivationErr(m))
      case Success(ts) => Success(BucketPreSave(b.(trades := ts)))
  }

  /** Once validation has passed, no trade hook fails, and each one derives
      its trade. */
  lemma {:induction false} SchemaValidTradesRun(trades: seq<Trade>)
    requires forall i :: 0 <= i < |trades| ==> TradeSchemaValid(trades[i])
    ensures RunTradeHooks(trades).Success?
    ensures forall i :: 0 <= i < |trades| ==> Derived(RunTradeHooks(trades).value[i])
  {
    forall i | 0 <= i < |trades|
      ensures TradePreSave(trades[i]).Success? && Derived(TradePreSave(trades[i]).value)
    {
      SchemaValidTradeDerives(trades[i]);
    }
  }

  /** A schema-valid document never reaches the hook's own sellPrice error. */
  lemma SaveNeverFailsInHook(b: Bucket)
    ensures !SaveBucket(b).Failure? || SaveBucket(b).error == SchemaErr
  {
  }

  /** A bucket as it is stored: saving it again gives it back unchanged. */
  predicate Persisted(b: Bucket)
  {
    SaveBucket(b) == Success(b)
  }

  /** If every hook is the identity on the trades, running them gives the
      trades back. */
  lemma {:induction false} RunTradeHooksIdentity(trades: seq<Trade>)
    requires forall i :: 0 <= i < |trades| ==> TradePreSave(trades[i]) == Success(trades[i])
    ensures RunTradeHooks(trades) == Success(trades)
  {
    var r := RunTradeHooks(trades);
    assert !exists i :: 0 <= i < |trades| && TradePreSave(trades[i]).Failure?;
    assert r.Success?;
    forall i | 0 <= i < |trades|
      ensures r.value[i] == trades[i]
    {
      assert TradePreSave(trades[i]) == Success(r.value[i]);
    }
    assert r.value == trades;
  }

  lemma PersistedIff(b: Bucket)
    ensures Persisted(b) <==>
      && BucketSchemaValid(b)
      && (forall i :: 0 <= i < |b.trades| ==> Derived(b.trades[i]))
      && b.totalProfitAndLoss == TotalOf(b.trades)
  {
    if BucketSchemaValid(b)
      && (forall i :: 0 <= i < |b.trades| ==> Derived(b.trades[i]))
      && b.totalProfitAndLoss == TotalOf(b.trades)
    {
      forall i | 0 <= i < |b.trades|
        ensures TradePreSave(b.trades[i]) == Success(b.trades[i])
      {
        DerivedIsFixedPoint(b.trades[i]);
      }
      RunTradeHooksIdentity(b.trades);
      assert b.(trades := b.trades) == b;
    }
  }

  /** Saving is idempotent: what a save stores is a stored bucket. */
  lemma SaveBucketIdempotent(b: Bucket)
    requires SaveBucket(b).Success?
    ensures Persisted(SaveBucket(b).value)
  {
    var s := SaveBucket(b).value;
    forall i | 0 <= i < |s.trades|
      ensures TradeSchemaValid(s.trades[i])
    {
      assert s.trades[i] == b.trades[i].(profitAndLoss := s.trades[i].profitAndLoss);
      assert TradeSchemaValid(b.trades[i]);
    }
    PersistedIff(s);
  }

  /** The stored total plays no part in a save. */
  lemma SaveIgnoresOldTotal(b: Bucket, previous: real)
    ensures SaveBucket(b.(totalProfitAndLoss := previous)) == SaveBucket(b)
  {
  }

  /** Appending a trade to a stored bucket and saving: the save succeeds iff
      the new trade is schema-valid; the earlier trades come back unchanged,
      the new one is last and derived, and the total moves by its P&L. */
  lemma SaveAfterAppend(b: Bucket, t: Trade)
    requires Persisted(b)
    ensures SaveBucket(b.(trades := b.trades + [t])).Success? <==> TradeSchemaValid(t)
    ensures TradeSchemaValid(t) ==>
      var s := SaveBucket(b.(trades := b.trades + [t])).value;
      && s.name == b.name
      && s.trades == b.trades + [TradePreSave(t).value]
      && Derived(s.trades[|b.trades|])
      && s.totalProfitAndLoss == b.totalProfitAndLoss + s.trades[|b.trades|].profitAndLoss
  {
    PersistedIff(b);
    var b' := b.(trades := b.trades + [t]);
    var n := |b.trades|;
    assert forall i :: 0 <= i < n ==> b'.trades[i] == b.trades[i];
    assert b'.trades[n] == t;
    if TradeSchemaValid(t) {
      assert BucketSchemaValid(b');
      var s := SaveBucket(b').value;
      forall i | 0 <= i < n
        ensures s.trades[i] == b.trades[i]
      {
        DerivedIsFixedPoint(b.trades[i]);
        assert s.trades[i] == b.trades[i].(profitAndLoss := s.trades[i].profitAndLoss);
      }
      SchemaValidTradeDerives(t);
      assert s.trades[n] == t.(profitAndLoss := s.trades[n].profitAndLoss);
      assert s.trades[n] == TradePreSave(t).value;
      assert s.trades == b.trades + [TradePreSave(t).value];
      FoldPnlIsSum(0.0, b.trades);
      FoldPnlIsSum(0.0, s.trades);
      FoldPnlAppend(0.0, b.trades, s.trades[n]);
    } else {
      assert !BucketSchemaValid(b');
    }
  }

  /** Replacing the trade at k of a stored bucket and saving: the save
      succeeds iff the replacement is schema-valid; every other trade comes
      back unchanged, the replacement is derived, and the total moves by the
      difference of the two P&L values. */
  lemma SaveAfterReplace(b: Bucket, k: nat, t: Trade)
    requires Persisted(b) && k < |b.trades|
    ensures SaveBucket(b.(trades := b.trades[k := t])).Success? <==> TradeSchemaValid(t)
    ensures TradeSchemaValid(t) ==>
      var s := SaveBucket(b.(trades := b.trades[k := t])).value;
      && s.name == b.name
      && s.trades == b.trades[k := TradePreSave(t).value]
      && Derived(s.trades[k])
      && s.totalProfitAndLoss
         == b.totalProfitAndLoss - b.trades[k].profitAndLoss + s.trades[k].profitAndLoss
  {
    PersistedIff(b);
    var b' := b.(trades := b.trades[k := t]);
    if TradeSchemaValid(t) {
      assert BucketSchemaValid(b');
      var s := SaveBucket(b').value;
      forall i | 0 <= i < |b.trades| && i != k
        ensures s.trades[i] == b.trades[i]
      {
        DerivedIsFixedPoint(b.trades[i]);
        assert s.trades[i] == b.trades[i].(profitAndLoss := s.trades[i].profitAndLoss);
      }
      SchemaValidTradeDerives(t);
      assert s.trades[k] == t.(profitAndLoss := s.trades[k].profitAndLoss);
      assert s.trades == b.trades[k := TradePreSave(t).value];
      TotalOfUpdate(b.trades, k, s.trades[k]);
    } else {
      assert !TradeSchemaValid(b'.trades[k]);
    }
  }
}
