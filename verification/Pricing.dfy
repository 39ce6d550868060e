/**
 The cost state a package is built from. The pricing engine is not part of this model: `compose_price`,
 `unit_price`, decimal addition and the text of a decimal are fixed functions, and no more is said of them.
 */
module Pricing {
  import opened Options

  datatype Decimal = Decimal(coefficient: int, exponent: int)

  datatype Rates = Rates(
    fiscalYear: int, vintage: string, fringe: Decimal, overhead: Decimal, generalAdmin: Decimal,
    costOfMoney: Decimal, profit: Decimal, escalation: Decimal)

  datatype StepSpec = StepSpec(
    name: string, rateKey: Option<string>, basisKind: string, component: Option<string>, plusSteps: seq<string>)

  datatype Step = Step(name: string, rate: Option<Decimal>, basis: Option<Decimal>, amount: Decimal, running: Decimal)

  datatype BuildUp = BuildUp(price: Decimal, steps: seq<Step>)

  datatype LaborLine = LaborLine(kind: string, hours: Decimal, cost: Decimal, rate: Decimal)

  datatype Month = Month(period: string, hours: Decimal)

  datatype Share = Share(name: string, amount: Decimal)

  datatype Lot = Lot(
    quantity: int, fiscalYear: int, directLabor: Decimal, material: Decimal, otherDirect: Decimal,
    warranty: Decimal, warrantyHours: Decimal, contracts: Decimal,
    labor: seq<LaborLine>, months: seq<Month>, suppliers: seq<Share>)

  /** The lots of the model, the rates of each year and vintage, and the first vintage of each year. */
  datatype State = State(lots: map<int, Lot>, rates: map<(int, string), Rates>, first: map<int, string>)

  datatype Engine = Engine(
    compose: (Decimal, Decimal, Decimal, Rates, seq<StepSpec>) -> BuildUp,
    unitPrice: (BuildUp, int) -> Decimal,
    add: (Decimal, Decimal) -> Decimal,
    times: (Decimal, Decimal) -> Decimal,
    quantize: Decimal -> Decimal,
    show: Decimal -> string,
    showYear: int -> string,
    read: string -> Decimal)

  /** A decimal's text reads back as the decimal. */
  ghost predicate Faithful(e: Engine) {
    forall d :: e.read(e.show(d)) == d
  }

  /** Is a vintage asked for? An empty one is none. */
  predicate Given(vintage: Option<string>) {
    vintage.Some? && vintage.value != ""
  }

  /** `_rates_for_lot`; None where a lookup raises. */
  function RatesFor(state: State, lot: Lot, vintage: Option<string>): Option<Rates> {
    if !Given(vintage) && lot.fiscalYear !in state.first then None
    else
      var v := if Given(vintage) then vintage.value else state.first[lot.fiscalYear];
      if (lot.fiscalYear, v) in state.rates then Some(state.rates[(lot.fiscalYear, v)]) else None
  }

  /** The vintage a lot is priced at: the one asked for, or the first of its year. */
  ghost predicate PricedAt(state: State, lot: Lot, vintage: Option<string>, v: string) {
    if vintage.Some? && |vintage.value| > 0 then v == vintage.value
    else lot.fiscalYear in state.first && v == state.first[lot.fiscalYear]
  }

  /** A lot's rates are those of its year at that vintage. */
  lemma RatesExactly(state: State, lot: Lot, vintage: Option<string>, rates: Rates)
    ensures RatesFor(state, lot, vintage) == Some(rates) <==>
      exists v :: PricedAt(state, lot, vintage, v) && (lot.fiscalYear, v) in state.rates
        && state.rates[(lot.fiscalYear, v)] == rates
  {
    if RatesFor(state, lot, vintage) == Some(rates) {
      var v := if Given(vintage) then vintage.value else state.first[lot.fiscalYear];
      assert PricedAt(state, lot, vintage, v);
    }
  }
}
