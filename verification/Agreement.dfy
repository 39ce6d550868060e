/** The two halves of a package agree: the manifest records the prices and steps the dataset holds. */
module Agreement {
  import opened Options
  import opened Pricing
  import Dataset
  import D = DatasetRows
  import P = Package

  /** The figures a check records are those of the lot itself, at the rates of its first vintage. */
  lemma CheckIsOfLot(state: State, n: int, spec: seq<StepSpec>, e: Engine)
    requires Faithful(e)
    ensures P.CheckFor(state, n, None, spec, e).Some? <==> D.BuildFor(state, n, spec, e).Some?
    ensures D.BuildFor(state, n, spec, e).Some? ==>
      var build := D.BuildFor(state, n, spec, e).value;
      var check := P.CheckFor(state, n, None, spec, e).value;
      && n in state.lots && check.lot == n
      && check.price == e.show(build.price) && check.unitPrice == e.show(e.unitPrice(build, state.lots[n].quantity))
      && check.steps == P.StepsOf(build.steps, e)
  {
  }

  /** Some row of this category gives this price. */
  ghost predicate Says(rows: seq<Dataset.Row>, c: D.Category, price: string) {
    exists row :: row in rows && row.key.category == D.Name(c) && row.price == price
  }

  /** Some row of the composition gives this step this amount. */
  ghost predicate SaysStep(rows: seq<Dataset.Row>, name: string, amount: string) {
    exists row :: row in rows && row.key.category == D.Name(D.Composition) && row.key.sub == name && row.price == amount
  }

  /** The lot's rows give its price, its unit price and its steps. */
  lemma FiguresAreSaid(n: int, lot: Lot, build: BuildUp, e: Engine)
    ensures var rows := D.LotRows(n, lot, build, e);
      && Says(rows, D.Price, e.show(build.price))
      && Says(rows, D.UnitPrice, e.show(e.unitPrice(build, lot.quantity)))
      && (forall j :: 0 <= j < |build.steps| ==> SaysStep(rows, build.steps[j].name, e.show(build.steps[j].amount)))
  {
    var rows := D.LotRows(n, lot, build, e);
    var steps, totals := D.StepRows(n, lot, build, e), D.TotalRows(n, lot, build, e);
    assert forall row :: row in steps || row in totals ==> row in rows by {
      hide D.LaborRows, D.MonthRows, D.SupplierRows, D.FixedRows, D.StepRows, D.TotalRows;
    }
    hide D.LotRows, D.Name;
    assert totals[0] in totals && totals[1] in totals;
    forall j | 0 <= j < |build.steps| ensures SaysStep(rows, build.steps[j].name, e.show(build.steps[j].amount)) {
      assert steps[j] in steps;
    }
  }

  /** So the dataset's price and step rows say what the manifest says. */
  lemma ManifestAgreesWithDataset(state: State, n: int, spec: seq<StepSpec>, e: Engine)
    requires Faithful(e) && D.BuildFor(state, n, spec, e).Some?
    ensures n in state.lots && P.CheckFor(state, n, None, spec, e).Some?
    ensures var rows := D.LotRows(n, state.lots[n], D.BuildFor(state, n, spec, e).value, e);
      var check := P.CheckFor(state, n, None, spec, e).value;
      && Says(rows, D.Price, check.price) && Says(rows, D.UnitPrice, check.unitPrice)
      && (forall j :: 0 <= j < |check.steps| ==> SaysStep(rows, check.steps[j].name, check.steps[j].amount))
  {
    hide D.BuildFor, P.CheckFor, D.LotRows, Says, SaysStep, Faithful;
    CheckIsOfLot(state, n, spec, e);
    FiguresAreSaid(n, state.lots[n], D.BuildFor(state, n, spec, e).value, e);
  }
}
