/** The embedded trade document of backend/models/trading.model.js: its schema,
    the sellPrice path validator and the pre-save hook that derives
    profitAndLoss. */
module Trading {
  import opened Wrappers

  type TradeId = nat

  /** A trade sub-document. The schema's required fields are plain values;
      sellPrice is optional and defaults to null (None); profitAndLoss
      defaults to 0. status stays a string: the enum ["open", "closed"] is
      part of TradeSchemaValid, because the hook runs on whatever status the
      document holds. */
  datatype Trade = Trade(
    id: TradeId,
    instrument: string,
    qty: real,
    avg: real,
    ltp: real,
    status: string,
    sellPrice: Option<real>,
    profitAndLoss: real)

  const Open: string := "open"
  const Closed: string := "closed"
  const SellPriceRequired: string := "sellPrice is required for closed positions"

  function Abs(x: real): real
  {
    if x < 0.0 then -x else x
  }

  /** The hook's arithmetic as written: the long formula when qty > 0, and its
      negation otherwise (the short side and qty = 0). */
  function PositionPnl(qty: real, avg: real, refPrice: real): real
  {
    if qty > 0.0 then (refPrice - avg) * qty else -(refPrice - avg) * qty
  }

  /** The pre-save hook. It fails only for a closed trade without a sellPrice,
      and otherwise changes nothing but profitAndLoss. */
  function TradePreSave(t: Trade): (r: Result<Trade, string>)
    ensures r.Failure? <==> t.status == Closed && t.sellPrice.None?
    ensures r.Failure? ==> r.error == SellPriceRequired
    ensures r.Success? ==> r.value == t.(profitAndLoss := r.value.profitAndLoss)
  {
    if t.status == Open then
      Success(t.(profitAndLoss := PositionPnl(t.qty, t.avg, t.ltp)))
    else if t.status == Closed then
      if t.sellPrice.None? then Failure(SellPriceRequired)
      else Success(t.(profitAndLoss := PositionPnl(t.qty, t.avg, t.sellPrice.value)))
    else
      Success(t)
  }

  /** The sellPrice path validator: false for a closed trade whose sellPrice
      is null and for an open trade whose sellPrice is set, true otherwise. */
  function SellPriceValidator(status: string, value: Option<real>): bool
  {
    if status == Closed && value.None? then false
    else if status == Open && value.Some? then false
    else true
  }

  /** What Mongoose's validation of a trade sub-document demands before any
      pre-save hook runs: the required string fields are non-empty, status is
      in the enum, and the sellPrice validator accepts. */
  predicate TradeSchemaValid(t: Trade)
  {
    && t.instrument != ""
    && (t.status == Open || t.status == Closed)
    && SellPriceValidator(t.status, t.sellPrice)
  }

  /** The reference price of a trade: ltp while open, sellPrice once closed. */
  predicate HasReferencePrice(t: Trade)
  {
    t.status == Open || (t.status == Closed && t.sellPrice.Some?)
  }

  function ReferencePrice(t: Trade): real
    requires HasReferencePrice(t)
  {
    if t.status == Open then t.ltp else t.sellPrice.value
  }

  /** A trade whose profitAndLoss is the derived value (R - avg) * |qty|. */
  predicate Derived(t: Trade)
  {
    HasReferencePrice(t) && t.profitAndLoss == (ReferencePrice(t) - t.avg) * Abs(t.qty)
  }

  // ---------------------------------------------------------------------
  // Arithmetic of the hook

  /** Both branches of the hook's formula equal (R - avg) * |qty|. */
  lemma PositionPnlIsAbsForm(qty: real, avg: real, refPrice: real)
    ensures PositionPnl(qty, avg, refPrice) == (refPrice - avg) * Abs(qty)
  {
    if qty > 0.0 {
      assert Abs(qty) == qty;
    } else {
      assert Abs(qty) == -qty;
      assert -(refPrice - avg) * qty == (refPrice - avg) * (-qty);
    }
  }

  lemma MulPositive(x: real, y: real)
    requires x > 0.0 && y > 0.0
    ensures x * y > 0.0
  {
  }

  /** The sign of the P&L is the sign of (R - avg) whatever the direction of
      the position, and a zero quantity gives zero. */
  lemma PositionPnlSign(qty: real, avg: real, refPrice: real)
    ensures PositionPnl(qty, avg, refPrice) > 0.0 <==> qty != 0.0 && refPrice > avg
    ensures PositionPnl(qty, avg, refPrice) < 0.0 <==> qty != 0.0 && refPrice < avg
    ensures PositionPnl(qty, avg, refPrice) == 0.0 <==> qty == 0.0 || refPrice == avg
  {
    PositionPnlIsAbsForm(qty, avg, refPrice);
    var d, m := refPrice - avg, Abs(qty);
    assert m > 0.0 <==> qty != 0.0;
    if m > 0.0 && d > 0.0 {
      MulPositive(d, m);
    } else if m > 0.0 && d < 0.0 {
      MulPositive(-d, m);
      assert d * m == -((-d) * m);
    } else {
      assert d == 0.0 || m == 0.0;
      assert d * m == 0.0;
    }
  }

  /** A short position whose price fell below its average: the formula as
      written reports a loss (qty = -10, avg = 100, ltp = 90 gives -100). */
  lemma ShortBelowAverageReportsLoss()
    ensures PositionPnl(-10.0, 100.0, 90.0) == -100.0
  {
  }

  // ---------------------------------------------------------------------
  // The hook

  lemma TradePreSaveOpen(t: Trade)
    requires t.status == Open
    ensures TradePreSave(t).Success?
    ensures TradePreSave(t).value.profitAndLoss
         == (if t.qty > 0.0 then (t.ltp - t.avg) * t.qty else -(t.ltp - t.avg) * t.qty)
    ensures TradePreSave(t).value.profitAndLoss == (t.ltp - t.avg) * Abs(t.qty)
  {
    PositionPnlIsAbsForm(t.qty, t.avg, t.ltp);
  }

  lemma TradePreSaveClosed(t: Trade)
    requires t.status == Closed && t.sellPrice.Some?
    ensures TradePreSave(t).Success?
    ensures TradePreSave(t).value.profitAndLoss
         == (if t.qty > 0.0 then (t.sellPrice.value - t.avg) * t.qty
             else -(t.sellPrice.value - t.avg) * t.qty)
    ensures TradePreSave(t).value.profitAndLoss == (t.sellPrice.value - t.avg) * Abs(t.qty)
  {
    PositionPnlIsAbsForm(t.qty, t.avg, t.sellPrice.value);
  }

  /** A status outside the enum leaves the trade, and so its profitAndLoss,
      untouched. */
  lemma TradePreSaveOtherStatus(t: Trade)
    requires t.status != Open && t.status != Closed
    ensures TradePreSave(t) == Success(t)
  {
  }

  /** The hook derives the P&L exactly when the trade has a reference price. */
  lemma TradePreSaveDerives(t: Trade)
    requires HasReferencePrice(t)
    ensures TradePreSave(t).Success? && Derived(TradePreSave(t).value)
  {
    if t.status == Open {
      TradePreSaveOpen(t);
    } else {
      TradePreSaveClosed(t);
    }
  }

  /** The hook ignores the profitAndLoss a trade already holds, so running it
      on its own output changes nothing. */
  lemma TradePreSaveIdempotent(t: Trade)
    requires TradePreSave(t).Success?
    ensures TradePreSave(TradePreSave(t).value) == TradePreSave(t)
  {
  }

  /** A derived trade is a fixed point of the hook, and a fixed point with a
      reference price is derived. */
  lemma DerivedIsFixedPoint(t: Trade)
    requires HasReferencePrice(t)
    ensures Derived(t) <==> TradePreSave(t) == Success(t)
  {
    TradePreSaveDerives(t);
    var u := TradePreSave(t).value;
    assert u == t.(profitAndLoss := u.profitAndLoss);
    assert u.profitAndLoss == (ReferencePrice(t) - t.avg) * Abs(t.qty);
    if Derived(t) {
      assert u == t;
    }
  }

  // ---------------------------------------------------------------------
  // The sellPrice validator

  lemma SellPriceValidatorIff(status: string, value: Option<real>)
    ensures !SellPriceValidator(status, value)
        <==> (status == Closed && value.None?) || (status == Open && value.Some?)
    ensures status != Open && status != Closed ==> SellPriceValidator(status, value)
  {
  }

  /** Once the validator has passed, the hook's own sellPrice check cannot
      fire: validation always runs before the pre-save hook. */
  lemma ValidatorGuardsHook(t: Trade)
    requires SellPriceValidator(t.status, t.sellPrice)
    ensures TradePreSave(t).Success?
  {
  }

  /** A schema-valid trade is derived by the hook. */
  lemma SchemaValidTradeDerives(t: Trade)
    requires TradeSchemaValid(t)
    ensures HasReferencePrice(t)
    ensures TradePreSave(t).Success? && Derived(TradePreSave(t).value)
    ensures TradeSchemaValid(TradePreSave(t).value)
  {
    TradePreSaveDerives(t);
  }
}
