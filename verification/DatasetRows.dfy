/** The result rows of a package, `dataset_rows`, and when they have the key the two containers are compared by. */
module DatasetRows {
  import opened Options
  import opened Basics
  import opened Pricing
  import opened Dataset

  datatype Category =
    | Labor | SepmMonthly | Supplier | Material | OtherDirect | Warranty | Contracts | Composition | Price | UnitPrice

  function Name(c: Category): string {
    match c
    case Labor => "labor"
    case SepmMonthly => "sepm_monthly"
    case Supplier => "supplier"
    case Material => "material"
    case OtherDirect => "other_direct"
    case Warranty => "warranty"
    case Contracts => "contracts"
    case Composition => "composition"
    case Price => "price"
    case UnitPrice => "unit_price"
  }

  /** Two characters tell the categories apart. */
  lemma NamesDiffer(c: Category, d: Category)
    requires Name(c) == Name(d)
    ensures c == d
  {
    assert |Name(c)| > 2 && Name(c)[0] == Name(d)[0] && Name(c)[1] == Name(d)[1] && Name(c)[2] == Name(d)[2];
  }

  const SEPM := "sepm"

  /** The first rate of the level-of-effort labor, where the lot has one. */
  function SepmRate(labor: seq<LaborLine>): Option<Decimal> {
    if labor == [] then None
    else if labor[0].kind == SEPM then Some(labor[0].rate)
    else SepmRate(labor[1..])
  }

  function MonthPrice(m: Month, rate: Option<Decimal>, e: Engine): string {
    if rate.Some? && rate.value.coefficient != 0 then e.show(e.quantize(e.times(m.hours, rate.value))) else "0.00"
  }

  function KeyOf(n: int, c: Category, sub: string, lot: Lot, e: Engine): Key {
    Key(n, Name(c), sub, e.showYear(lot.fiscalYear))
  }

  function LaborRow(n: int, lot: Lot, line: LaborLine, e: Engine): Row {
    Row(KeyOf(n, Labor, line.kind, lot, e), e.show(e.quantize(line.hours)), e.show(e.quantize(line.cost)))
  }

  function MonthRow(n: int, lot: Lot, m: Month, e: Engine): Row {
    Row(Key(n, Name(SepmMonthly), SEPM, m.period), e.show(e.quantize(m.hours)), MonthPrice(m, SepmRate(lot.labor), e))
  }

  function SupplierRow(n: int, lot: Lot, share: Share, e: Engine): Row {
    Row(KeyOf(n, Supplier, share.name, lot, e), "", e.show(e.quantize(share.amount)))
  }

  function StepRow(n: int, lot: Lot, step: Step, e: Engine): Row {
    Row(KeyOf(n, Composition, step.name, lot, e), "", e.show(step.amount))
  }

  function LaborRows(n: int, lot: Lot, e: Engine): seq<Row> {
    seq(|lot.labor|, i requires 0 <= i < |lot.labor| => LaborRow(n, lot, lot.labor[i], e))
  }

  function MonthRows(n: int, lot: Lot, e: Engine): seq<Row> {
    seq(|lot.months|, i requires 0 <= i < |lot.months| => MonthRow(n, lot, lot.months[i], e))
  }

  function SupplierRows(n: int, lot: Lot, e: Engine): seq<Row> {
    seq(|lot.suppliers|, i requires 0 <= i < |lot.suppliers| => SupplierRow(n, lot, lot.suppliers[i], e))
  }

  function FixedRows(n: int, lot: Lot, e: Engine): seq<Row> {
    [Row(KeyOf(n, Material, "", lot, e), "", e.show(e.quantize(lot.material))),
     Row(KeyOf(n, OtherDirect, "", lot, e), "", e.show(e.quantize(lot.otherDirect))),
     Row(KeyOf(n, Warranty, "", lot, e), e.show(e.quantize(lot.warrantyHours)), e.show(e.quantize(lot.warranty))),
     Row(KeyOf(n, Contracts, "", lot, e), "", e.show(e.quantize(lot.contracts)))]
  }

  function StepRows(n: int, lot: Lot, build: BuildUp, e: Engine): seq<Row> {
    seq(|build.steps|, i requires 0 <= i < |build.steps| => StepRow(n, lot, build.steps[i], e))
  }

  function TotalRows(n: int, lot: Lot, build: BuildUp, e: Engine): seq<Row> {
    [Row(KeyOf(n, Price, "", lot, e), "", e.show(build.price)),
     Row(KeyOf(n, UnitPrice, "", lot, e), "", e.show(e.unitPrice(build, lot.quantity)))]
  }

  function BuildOf(lot: Lot, rates: Rates, spec: seq<StepSpec>, e: Engine): BuildUp {
    e.compose(lot.directLabor, lot.material, e.add(e.add(lot.otherDirect, lot.warranty), lot.contracts), rates, spec)
  }

  function LotRows(n: int, lot: Lot, build: BuildUp, e: Engine): seq<Row> {
    LaborRows(n, lot, e) + (MonthRows(n, lot, e) + (SupplierRows(n, lot, e)
      + (FixedRows(n, lot, e) + (StepRows(n, lot, build, e) + TotalRows(n, lot, build, e)))))
  }

  /** The price build-up of a lot of the model; None where a lookup raises. */
  function BuildFor(state: State, n: int, spec: seq<StepSpec>, e: Engine): Option<BuildUp> {
    if n !in state.lots then None
    else
      var rates := RatesFor(state, state.lots[n], None);
      if rates.None? then None else Some(BuildOf(state.lots[n], rates.value, spec, e))
  }

  lemma BuildForKnows(state: State, n: int, spec: seq<StepSpec>, e: Engine)
    ensures BuildFor(state, n, spec, e).Some? ==> n in state.lots
  {
  }

  /** The rows of the first `count` lots; none where a lot cannot be priced. */
  function AllRows(state: State, lots: seq<int>, spec: seq<StepSpec>, e: Engine, count: nat): Option<seq<Row>>
    requires count <= |lots|
  {
    if count == 0 then Some([])
    else
      var n := lots[count - 1];
      var before := AllRows(state, lots, spec, e, count - 1);
      var build := BuildFor(state, n, spec, e);
      if before.None? || build.None? then None else Some(before.value + LotRows(n, state.lots[n], build.value, e))
  }

  lemma {:induction false} NoneStays(state: State, lots: seq<int>, spec: seq<StepSpec>, e: Engine, a: nat, b: nat)
    requires a <= b <= |lots| && AllRows(state, lots, spec, e, a).None?
    ensures AllRows(state, lots, spec, e, b).None?
    decreases b
  {
    hide LotRows, BuildFor;
    if a < b {
      NoneStays(state, lots, spec, e, a, b - 1);
    }
  }

  method LotRowsInOrder(n: int, lot: Lot, build: BuildUp, e: Engine) returns (rows: seq<Row>)
    ensures rows == LotRows(n, lot, build, e)
  {
    hide LaborRow, MonthRow, SupplierRow, StepRow, FixedRows, TotalRows;
    var labor: seq<Row> := [];
    for i := 0 to |lot.labor|
      invariant |labor| == i && forall j :: 0 <= j < i ==> labor[j] == LaborRow(n, lot, lot.labor[j], e)
    {
      labor := labor + [LaborRow(n, lot, lot.labor[i], e)];
    }
    var months: seq<Row> := [];
    for i := 0 to |lot.months|
      invariant |months| == i && forall j :: 0 <= j < i ==> months[j] == MonthRow(n, lot, lot.months[j], e)
    {
      months := months + [MonthRow(n, lot, lot.months[i], e)];
    }
    var suppliers: seq<Row> := [];
    for i := 0 to |lot.suppliers|
      invariant |suppliers| == i && forall j :: 0 <= j < i ==> suppliers[j] == SupplierRow(n, lot, lot.suppliers[j], e)
    {
      suppliers := suppliers + [SupplierRow(n, lot, lot.suppliers[i], e)];
    }
    var steps: seq<Row> := [];
    for i := 0 to |build.steps|
      invariant |steps| == i && forall j :: 0 <= j < i ==> steps[j] == StepRow(n, lot, build.steps[j], e)
    {
      steps := steps + [StepRow(n, lot, build.steps[i], e)];
    }
    assert labor == LaborRows(n, lot, e) && months == MonthRows(n, lot, e);
    assert suppliers == SupplierRows(n, lot, e) && steps == StepRows(n, lot, build, e);
    hide LaborRows, MonthRows, SupplierRows, StepRows;
    rows := labor + (months + (suppliers + (FixedRows(n, lot, e) + (steps + TotalRows(n, lot, build, e)))));
  }

  /** `dataset_rows`: lot by lot. */
  method RowsOf(state: State, lots: seq<int>, spec: seq<StepSpec>, e: Engine) returns (rows: Option<seq<Row>>)
    ensures rows == AllRows(state, lots, spec, e, |lots|)
  {
    hide BuildFor, LotRows;
    var result: seq<Row> := [];
    for i := 0 to |lots|
      invariant AllRows(state, lots, spec, e, i) == Some(result)
    {
      var build := BuildFor(state, lots[i], spec, e);
      BuildForKnows(state, lots[i], spec, e);
      if build.None? {
        NoneStays(state, lots, spec, e, i + 1, |lots|);
        return None;
      }
      var more := LotRowsInOrder(lots[i], state.lots[lots[i]], build.value, e);
      result := result + more;
    }
    rows := Some(result);
  }

  // ---- the rows, figure by figure

  /** The first line of level-of-effort labor. */
  ghost predicate FirstSepm(lot: Lot, i: nat) {
    i < |lot.labor| && lot.labor[i].kind == "sepm" && forall j: nat :: j < i ==> lot.labor[j].kind != "sepm"
  }

  /** A month of it is priced at that line's rate, and at nothing without one or at a rate of nought. */
  ghost predicate MonthPriced(price: string, lot: Lot, m: Month, e: Engine) {
    && (forall i: nat :: FirstSepm(lot, i) && lot.labor[i].rate.coefficient != 0 ==>
          price == e.show(e.quantize(e.times(m.hours, lot.labor[i].rate))))
    && ((forall i: nat :: FirstSepm(lot, i) ==> lot.labor[i].rate.coefficient == 0) ==> price == "0.00")
  }

  /** A row of a month of level-of-effort labor, under that month. */
  ghost predicate OfMonth(row: Row, n: int, lot: Lot, m: Month, e: Engine) {
    && row.key == Key(n, "sepm_monthly", "sepm", m.period)
    && row.hours == e.show(e.quantize(m.hours)) && MonthPriced(row.price, lot, m, e)
  }

  /** A row under the lot's year. */
  ghost predicate OfYear(row: Row, n: int, lot: Lot, category: string, sub: string, hours: string, price: string,
                         e: Engine) {
    row == Row(Key(n, category, sub, e.showYear(lot.fiscalYear)), hours, price)
  }

  /** The four figures every lot has; only the warranty's has hours. */
  ghost predicate Fixed(row: Row, n: int, lot: Lot, i: int, e: Engine) {
    match i
    case 0 => OfYear(row, n, lot, "material", "", "", e.show(e.quantize(lot.material)), e)
    case 1 => OfYear(row, n, lot, "other_direct", "", "", e.show(e.quantize(lot.otherDirect)), e)
    case 2 =>
      OfYear(row, n, lot, "warranty", "", e.show(e.quantize(lot.warrantyHours)), e.show(e.quantize(lot.warranty)), e)
    case 3 => OfYear(row, n, lot, "contracts", "", "", e.show(e.quantize(lot.contracts)), e)
    case _ => false
  }

  /** Where the rows of the suppliers, the four figures, the steps and the totals start. */
  function Places(lot: Lot, build: BuildUp): (int, int, int, int) {
    var suppliers := |lot.labor| + |lot.months|;
    var fixed := suppliers + |lot.suppliers|;
    (suppliers, fixed, fixed + 4, fixed + 4 + |build.steps|)
  }

  /** The row at place `i`: of the labor, the months, the suppliers, the four figures, the steps and the two totals. */
  ghost predicate RowAt(row: Row, n: int, lot: Lot, build: BuildUp, i: nat, e: Engine) {
    var (suppliers, fixed, steps, totals) := Places(lot, build);
    if i < |lot.labor| then
      var line := lot.labor[i];
      OfYear(row, n, lot, "labor", line.kind, e.show(e.quantize(line.hours)), e.show(e.quantize(line.cost)), e)
    else if i < suppliers then OfMonth(row, n, lot, lot.months[i - |lot.labor|], e)
    else if i < fixed then
      var share := lot.suppliers[i - suppliers];
      OfYear(row, n, lot, "supplier", share.name, "", e.show(e.quantize(share.amount)), e)
    else if i < steps then Fixed(row, n, lot, i - fixed, e)
    else if i < totals then
      var step := build.steps[i - steps];
      OfYear(row, n, lot, "composition", step.name, "", e.show(step.amount), e)
    else if i == totals then OfYear(row, n, lot, "price", "", "", e.show(build.price), e)
    else OfYear(row, n, lot, "unit_price", "", "", e.show(e.unitPrice(build, lot.quantity)), e)
  }

  lemma {:induction false} SepmRateExactly(labor: seq<LaborLine>)
    ensures match SepmRate(labor)
      case None => forall i :: 0 <= i < |labor| ==> labor[i].kind != "sepm"
      case Some(rate) => exists i :: (
        && 0 <= i < |labor| && labor[i].kind == "sepm" && labor[i].rate == rate
        && forall j :: 0 <= j < i ==> labor[j].kind != "sepm")
  {
    if labor != [] && labor[0].kind != SEPM {
      SepmRateExactly(labor[1..]);
      if SepmRate(labor).Some? {
        var i :| 0 <= i < |labor[1..]| && labor[1..][i].kind == "sepm" && labor[1..][i].rate == SepmRate(labor).value
          && forall j :: 0 <= j < i ==> labor[1..][j].kind != "sepm";
        forall j | 0 <= j < i + 1 ensures labor[j].kind != "sepm" {
          assert j > 0 ==> labor[1..][j - 1] == labor[j];
        }
        assert labor[i + 1] == labor[1..][i];
      } else {
        forall i | 0 <= i < |labor| ensures labor[i].kind != "sepm" {
          assert i > 0 ==> labor[1..][i - 1] == labor[i];
        }
      }
    }
  }

  lemma MonthPriceExactly(lot: Lot, m: Month, e: Engine, price: string)
    ensures price == MonthPrice(m, SepmRate(lot.labor), e) <==> MonthPriced(price, lot, m, e)
  {
    SepmRateExactly(lot.labor);
    hide SepmRate;
    if SepmRate(lot.labor).Some? {
      var i: nat :| i < |lot.labor| && lot.labor[i].kind == "sepm" && lot.labor[i].rate == SepmRate(lot.labor).value
        && forall j :: 0 <= j < i ==> lot.labor[j].kind != "sepm";
      assert FirstSepm(lot, i);
      forall k: nat | FirstSepm(lot, k) ensures k == i {
        assert !(k < i) && !(i < k);
      }
    }
  }

  lemma LaborAt(n: int, lot: Lot, build: BuildUp, i: nat, e: Engine)
    requires i < |lot.labor|
    ensures RowAt(LaborRow(n, lot, lot.labor[i], e), n, lot, build, i, e)
  {
  }

  lemma MonthAt(n: int, lot: Lot, build: BuildUp, i: nat, e: Engine)
    requires i < |lot.months|
    ensures RowAt(MonthRow(n, lot, lot.months[i], e), n, lot, build, |lot.labor| + i, e)
  {
    var row := MonthRow(n, lot, lot.months[i], e);
    MonthPriceExactly(lot, lot.months[i], e, row.price);
    hide MonthPrice, SepmRate, MonthPriced;
  }

  lemma SupplierAt(n: int, lot: Lot, build: BuildUp, i: nat, e: Engine)
    requires i < |lot.suppliers|
    ensures RowAt(SupplierRow(n, lot, lot.suppliers[i], e), n, lot, build, |lot.labor| + |lot.months| + i, e)
  {
  }

  lemma FixedAt(n: int, lot: Lot, build: BuildUp, i: nat, e: Engine)
    requires i < 4
    ensures |FixedRows(n, lot, e)| == 4
    ensures RowAt(FixedRows(n, lot, e)[i], n, lot, build, |lot.labor| + |lot.months| + |lot.suppliers| + i, e)
  {
  }

  lemma StepAt(n: int, lot: Lot, build: BuildUp, i: nat, e: Engine)
    requires i < |build.steps|
    ensures RowAt(StepRow(n, lot, build.steps[i], e), n, lot, build,
                  |lot.labor| + |lot.months| + |lot.suppliers| + 4 + i, e)
  {
  }

  lemma TotalAt(n: int, lot: Lot, build: BuildUp, i: nat, e: Engine)
    requires i < 2
    ensures |TotalRows(n, lot, build, e)| == 2
    ensures RowAt(TotalRows(n, lot, build, e)[i], n, lot, build,
                  |lot.labor| + |lot.months| + |lot.suppliers| + 4 + |build.steps| + i, e)
  {
  }

  lemma Sixth<T>(a: seq<T>, b: seq<T>, c: seq<T>, d: seq<T>, x: seq<T>, f: seq<T>, i: nat)
    requires i < |a| + |b| + |c| + |d| + |x| + |f|
    ensures (a + (b + (c + (d + (x + f)))))[i] ==
            if i < |a| then a[i]
            else if i < |a| + |b| then b[i - |a|]
            else if i < |a| + |b| + |c| then c[i - |a| - |b|]
            else if i < |a| + |b| + |c| + |d| then d[i - |a| - |b| - |c|]
            else if i < |a| + |b| + |c| + |d| + |x| then x[i - |a| - |b| - |c| - |d|]
            else f[i - |a| - |b| - |c| - |d| - |x|]
  {
  }

  /** A lot's rows are these, each at its place. */
  lemma LotRowsExactly(n: int, lot: Lot, build: BuildUp, e: Engine)
    ensures var rows := LotRows(n, lot, build, e);
      && |rows| == |lot.labor| + |lot.months| + |lot.suppliers| + 4 + |build.steps| + 2
      && forall i: nat :: i < |rows| ==> RowAt(rows[i], n, lot, build, i, e)
  {
    FixedAt(n, lot, build, 0, e);
    TotalAt(n, lot, build, 0, e);
    var rows := LotRows(n, lot, build, e);
    var (suppliers, fixed, steps, totals) := Places(lot, build);
    hide FixedRows, TotalRows, RowAt, LaborRow, MonthRow, SupplierRow, StepRow;
    forall i: nat | i < |rows| ensures RowAt(rows[i], n, lot, build, i, e) {
      Sixth(LaborRows(n, lot, e), MonthRows(n, lot, e), SupplierRows(n, lot, e), FixedRows(n, lot, e),
            StepRows(n, lot, build, e), TotalRows(n, lot, build, e), i);
      hide LotRows;
      if i < |lot.labor| {
        LaborAt(n, lot, build, i, e);
      } else if i < suppliers {
        MonthAt(n, lot, build, i - |lot.labor|, e);
      } else if i < fixed {
        SupplierAt(n, lot, build, i - suppliers, e);
      } else if i < steps {
        FixedAt(n, lot, build, i - fixed, e);
      } else if i < totals {
        StepAt(n, lot, build, i - steps, e);
      } else {
        TotalAt(n, lot, build, i - totals, e);
      }
    }
  }

  /** The rows of lot `n`, at the rates of the first vintage of its year. */
  ghost predicate RowsOfLot(state: State, n: int, spec: seq<StepSpec>, e: Engine, rows: seq<Row>) {
    n in state.lots && var lot := state.lots[n];
    exists v :: PricedAt(state, lot, None, v) && (lot.fiscalYear, v) in state.rates
      && rows == LotRows(n, lot, BuildOf(lot, state.rates[(lot.fiscalYear, v)], spec, e), e)
  }

  /** The first `count` lots have rows exactly when each of them is in the model and has rates. */
  lemma {:induction false} RowsExistExactly(state: State, lots: seq<int>, spec: seq<StepSpec>, e: Engine, count: nat)
    requires count <= |lots|
    ensures AllRows(state, lots, spec, e, count).Some? <==>
      forall i :: 0 <= i < count ==> lots[i] in state.lots && RatesFor(state, state.lots[lots[i]], None).Some?
  {
    hide LotRows, BuildOf, RatesFor;
    if count > 0 {
      RowsExistExactly(state, lots, spec, e, count - 1);
    }
  }

  function Flat<T>(parts: seq<seq<T>>): seq<T> {
    if parts == [] then [] else Flat(parts[..|parts| - 1]) + parts[|parts| - 1]
  }

  /** The rows of a package are those of its lots, lot after lot. */
  lemma {:induction false} AllRowsExactly(state: State, lots: seq<int>, spec: seq<StepSpec>, e: Engine, count: nat)
    returns (parts: seq<seq<Row>>)
    requires count <= |lots| && AllRows(state, lots, spec, e, count).Some?
    ensures |parts| == count && AllRows(state, lots, spec, e, count).value == Flat(parts)
    ensures forall i :: 0 <= i < count ==> RowsOfLot(state, lots[i], spec, e, parts[i])
  {
    hide RowsOfLot, LotRows, BuildFor;
    if count == 0 {
      parts := [];
    } else {
      var last := LastRows(state, lots, spec, e, count);
      hide AllRows;
      var before := AllRowsExactly(state, lots, spec, e, count - 1);
      parts := before + [last];
      assert parts[..count - 1] == before;
    }
  }

  lemma LastRows(state: State, lots: seq<int>, spec: seq<StepSpec>, e: Engine, count: nat) returns (last: seq<Row>)
    requires 0 < count <= |lots| && AllRows(state, lots, spec, e, count).Some?
    ensures AllRows(state, lots, spec, e, count - 1).Some? && RowsOfLot(state, lots[count - 1], spec, e, last)
    ensures AllRows(state, lots, spec, e, count).value == AllRows(state, lots, spec, e, count - 1).value + last
  {
    var n := lots[count - 1];
    var rates := RatesFor(state, state.lots[n], None).value;
    RatesExactly(state, state.lots[n], None, rates);
    hide LotRows, RatesFor, PricedAt, BuildOf;
    last := LotRows(n, state.lots[n], BuildOf(state.lots[n], rates, spec, e), e);
  }

  // ---- the key

  function Kinds(lot: Lot): seq<string> {
    seq(|lot.labor|, i requires 0 <= i < |lot.labor| => lot.labor[i].kind)
  }

  function Periods(lot: Lot): seq<string> {
    seq(|lot.months|, i requires 0 <= i < |lot.months| => lot.months[i].period)
  }

  function SupplierNames(lot: Lot): seq<string> {
    seq(|lot.suppliers|, i requires 0 <= i < |lot.suppliers| => lot.suppliers[i].name)
  }

  function StepNames(build: BuildUp): seq<string> {
    seq(|build.steps|, i requires 0 <= i < |build.steps| => build.steps[i].name)
  }

  /** Do no two labor kinds, months, suppliers or steps of the lot share a name? */
  predicate NamesDistinct(lot: Lot, build: BuildUp) {
    NoDuplicates(Kinds(lot)) && NoDuplicates(Periods(lot))
    && NoDuplicates(SupplierNames(lot)) && NoDuplicates(StepNames(build))
  }

  predicate NoneShared(a: seq<Row>, b: seq<Row>) {
    forall i, j :: 0 <= i < |a| && 0 <= j < |b| ==> a[i].key != b[j].key
  }

  lemma KeyedTogether(a: seq<Row>, b: seq<Row>)
    ensures IsKeyed(a + b) <==> IsKeyed(a) && IsKeyed(b) && NoneShared(a, b)
  {
    var s := a + b;
    if IsKeyed(s) {
      forall i, j | 0 <= i < j < |a| ensures a[i].key != a[j].key {
        assert s[i].key != s[j].key;
      }
      forall i, j | 0 <= i < j < |b| ensures b[i].key != b[j].key {
        assert s[|a| + i].key != s[|a| + j].key;
      }
      forall i, j | 0 <= i < |a| && 0 <= j < |b| ensures a[i].key != b[j].key {
        assert s[i].key != s[|a| + j].key;
      }
    }
  }

  /** Every row is of this lot, and of one of these categories. */
  predicate Of(s: seq<Row>, n: int, names: set<string>) {
    forall i :: 0 <= i < |s| ==> s[i].key.lot == n && s[i].key.category in names
  }

  lemma Joined(a: seq<Row>, n: int, na: set<string>, b: seq<Row>, nb: set<string>)
    requires Of(a, n, na) && Of(b, n, nb) && na !! nb
    ensures Of(a + b, n, na + nb) && (IsKeyed(a + b) <==> IsKeyed(a) && IsKeyed(b))
  {
    hide IsKeyed;
    KeyedTogether(a, b);
    forall i, j | 0 <= i < |a| && 0 <= j < |b| ensures a[i].key != b[j].key {
      assert a[i].key.category in na && b[j].key.category in nb;
    }
  }

  function Names(cats: set<Category>): set<string> {
    set c | c in cats :: Name(c)
  }

  lemma NamesApart(a: set<Category>, b: set<Category>)
    requires a !! b
    ensures Names(a) !! Names(b) && Names(a + b) == Names(a) + Names(b)
  {
    hide Name;
    forall x | x in Names(a) ensures x !in Names(b) {
      if x in Names(b) {
        var c :| c in a && Name(c) == x;
        var d :| d in b && Name(d) == x;
        NamesDiffer(c, d);
        assert false;
      }
    }
  }

  /** Rows told apart by a name each have a key exactly when the names are distinct. */
  lemma KeyedByName(s: seq<Row>, names: seq<string>)
    requires |s| == |names|
    requires forall i, j :: 0 <= i < j < |s| ==> (s[i].key == s[j].key <==> names[i] == names[j])
    ensures IsKeyed(s) <==> NoDuplicates(names)
  {
  }

  lemma LaborKeyed(n: int, lot: Lot, e: Engine)
    ensures Of(LaborRows(n, lot, e), n, Names({Labor})) && (IsKeyed(LaborRows(n, lot, e)) <==> NoDuplicates(Kinds(lot)))
  {
    hide Name;
    KeyedByName(LaborRows(n, lot, e), Kinds(lot));
  }

  lemma MonthsKeyed(n: int, lot: Lot, e: Engine)
    ensures Of(MonthRows(n, lot, e), n, Names({SepmMonthly}))
      && (IsKeyed(MonthRows(n, lot, e)) <==> NoDuplicates(Periods(lot)))
  {
    hide Name, MonthPrice;
    KeyedByName(MonthRows(n, lot, e), Periods(lot));
  }

  lemma SuppliersKeyed(n: int, lot: Lot, e: Engine)
    ensures Of(SupplierRows(n, lot, e), n, Names({Supplier}))
    ensures IsKeyed(SupplierRows(n, lot, e)) <==> NoDuplicates(SupplierNames(lot))
  {
    hide Name;
    KeyedByName(SupplierRows(n, lot, e), SupplierNames(lot));
  }

  lemma StepsKeyed(n: int, lot: Lot, build: BuildUp, e: Engine)
    ensures Of(StepRows(n, lot, build, e), n, Names({Composition}))
    ensures IsKeyed(StepRows(n, lot, build, e)) <==> NoDuplicates(StepNames(build))
  {
    hide Name;
    KeyedByName(StepRows(n, lot, build, e), StepNames(build));
  }

  lemma FixedKeyed(n: int, lot: Lot, build: BuildUp, e: Engine)
    ensures Of(FixedRows(n, lot, e), n, Names({Material, OtherDirect, Warranty, Contracts}))
      && IsKeyed(FixedRows(n, lot, e))
    ensures Of(TotalRows(n, lot, build, e), n, Names({Price, UnitPrice})) && IsKeyed(TotalRows(n, lot, build, e))
  {
    NamesApart({Material}, {OtherDirect, Warranty, Contracts});
    NamesApart({OtherDirect}, {Warranty, Contracts});
    NamesApart({Warranty}, {Contracts});
    NamesApart({Price}, {UnitPrice});
    hide Name;
  }

  /** The rows of a lot have a key exactly when the names it lists are distinct, each list for itself. */
  lemma LotKeyedExactly(n: int, lot: Lot, build: BuildUp, e: Engine)
    ensures OfLot(LotRows(n, lot, build, e), n)
    ensures IsKeyed(LotRows(n, lot, build, e)) <==> NamesDistinct(lot, build)
  {
    LaborKeyed(n, lot, e);
    MonthsKeyed(n, lot, e);
    SuppliersKeyed(n, lot, e);
    FixedKeyed(n, lot, build, e);
    StepsKeyed(n, lot, build, e);
    hide LaborRows, MonthRows, SupplierRows, FixedRows, StepRows, TotalRows, Names, IsKeyed, Of;
    var totals, steps := TotalRows(n, lot, build, e), StepRows(n, lot, build, e);
    var fixed, suppliers := FixedRows(n, lot, e), SupplierRows(n, lot, e);
    var months, labor := MonthRows(n, lot, e), LaborRows(n, lot, e);
    var c1 := {Price, UnitPrice};
    var c2 := {Composition} + c1;
    var fixedCats := {Material, OtherDirect, Warranty, Contracts};
    var c3 := fixedCats + c2;
    var c4 := {Supplier} + c3;
    var c5 := {SepmMonthly} + c4;
    JoinedBlock(steps, n, {Composition}, totals, c1);
    JoinedBlock(fixed, n, fixedCats, steps + totals, c2);
    JoinedBlock(suppliers, n, {Supplier}, fixed + (steps + totals), c3);
    JoinedBlock(months, n, {SepmMonthly}, suppliers + (fixed + (steps + totals)), c4);
    JoinedBlock(labor, n, {Labor}, months + (suppliers + (fixed + (steps + totals))), c5);
    OfIsOfLot(LotRows(n, lot, build, e), n, Names({Labor} + c5));
  }

  predicate OfLot(s: seq<Row>, n: int) {
    forall i :: 0 <= i < |s| ==> s[i].key.lot == n
  }

  lemma OfIsOfLot(s: seq<Row>, n: int, names: set<string>)
    requires Of(s, n, names)
    ensures OfLot(s, n)
  {
  }

  lemma JoinedBlock(a: seq<Row>, n: int, ca: set<Category>, b: seq<Row>, cb: set<Category>)
    requires Of(a, n, Names(ca)) && Of(b, n, Names(cb)) && ca !! cb
    ensures Of(a + b, n, Names(ca + cb)) && (IsKeyed(a + b) <==> IsKeyed(a) && IsKeyed(b))
  {
    hide IsKeyed, Of, Names;
    NamesApart(ca, cb);
    Joined(a, n, Names(ca), b, Names(cb));
  }

  /** Every row is of one of these lots. */
  predicate OfLots(s: seq<Row>, lots: seq<int>) {
    forall i :: 0 <= i < |s| ==> s[i].key.lot in lots
  }

  predicate HasKey(s: seq<Row>, k: Key) {
    exists i :: 0 <= i < |s| && s[i].key == k
  }

  lemma HasKeyEither(a: seq<Row>, b: seq<Row>, k: Key)
    ensures HasKey(a + b, k) <==> HasKey(a, k) || HasKey(b, k)
  {
    if i :| 0 <= i < |a| && a[i].key == k {
      assert (a + b)[i].key == k;
    }
    if i :| 0 <= i < |b| && b[i].key == k {
      assert (a + b)[|a| + i].key == k;
    }
  }

  lemma OfLotsOneMore(a: seq<Row>, lots: seq<int>, b: seq<Row>, n: int)
    requires OfLots(a, lots) && OfLot(b, n)
    ensures OfLots(a + b, lots + [n])
  {
  }

  /** A lot's material row is there whatever the lot lists. */
  function MaterialKey(n: int, lot: Lot, e: Engine): Key {
    KeyOf(n, Material, "", lot, e)
  }

  lemma MaterialRowIsThere(n: int, lot: Lot, build: BuildUp, e: Engine)
    ensures HasKey(LotRows(n, lot, build, e), MaterialKey(n, lot, e))
  {
    var at := |LaborRows(n, lot, e)| + |MonthRows(n, lot, e)| + |SupplierRows(n, lot, e)|;
    assert FixedRows(n, lot, e)[0].key == MaterialKey(n, lot, e);
    hide LaborRows, MonthRows, SupplierRows, StepRows, TotalRows, FixedRows, MaterialKey;
    assert LotRows(n, lot, build, e)[at] == FixedRows(n, lot, e)[0];
  }

  /** Which lots have a row so far. */
  lemma {:induction false} RowsOfEveryLot(state: State, lots: seq<int>, spec: seq<StepSpec>, e: Engine, count: nat)
    requires count <= |lots| && AllRows(state, lots, spec, e, count).Some?
    ensures var s := AllRows(state, lots, spec, e, count).value;
      && OfLots(s, lots[..count])
      && (forall n :: n in lots[..count] ==> n in state.lots && HasKey(s, MaterialKey(n, state.lots[n], e)))
  {
    hide BuildFor, LotRows, MaterialKey, HasKey;
    if count > 0 {
      hide OfLots;
      RowsOfEveryLot(state, lots, spec, e, count - 1);
      var n := lots[count - 1];
      var before := AllRows(state, lots, spec, e, count - 1).value;
      BuildForKnows(state, n, spec, e);
      var lot, build := state.lots[n], BuildFor(state, n, spec, e).value;
      var more := LotRows(n, lot, build, e);
      LotKeyedExactly(n, lot, build, e);
      MaterialRowIsThere(n, lot, build, e);
      assert lots[..count] == lots[..count - 1] + [n];
      OfLotsOneMore(before, lots[..count - 1], more, n);
      forall m | m in lots[..count] ensures m in state.lots && HasKey(before + more, MaterialKey(m, state.lots[m], e)) {
        HasKeyEither(before, more, MaterialKey(m, state.lots[m], e));
      }
    }
  }

  lemma SharedKey(a: seq<Row>, b: seq<Row>, k: Key)
    requires HasKey(a, k) && HasKey(b, k)
    ensures !NoneShared(a, b)
  {
    var i :| 0 <= i < |a| && a[i].key == k;
    var j :| 0 <= j < |b| && b[j].key == k;
    assert a[i].key == b[j].key;
  }

  /** A lot new to the rows shares no key with them; a lot already there shares one. */
  lemma NewLotExactly(state: State, lots: seq<int>, spec: seq<StepSpec>, e: Engine, count: nat)
    requires count < |lots| && AllRows(state, lots, spec, e, count + 1).Some?
    ensures var n := lots[count];
      var build := BuildFor(state, n, spec, e);
      && n in state.lots && build.Some? && AllRows(state, lots, spec, e, count).Some?
      && (NoneShared(AllRows(state, lots, spec, e, count).value, LotRows(n, state.lots[n], build.value, e)) <==>
            n !in lots[..count])
  {
    hide BuildFor, LotRows, MaterialKey, HasKey;
    var n := lots[count];
    var before := AllRows(state, lots, spec, e, count).value;
    BuildForKnows(state, n, spec, e);
    var lot, build := state.lots[n], BuildFor(state, n, spec, e).value;
    RowsOfEveryLot(state, lots, spec, e, count);
    LotKeyedExactly(n, lot, build, e);
    MaterialRowIsThere(n, lot, build, e);
    if n in lots[..count] {
      SharedKey(before, LotRows(n, lot, build, e), MaterialKey(n, lot, e));
    }
  }

  /** Can every lot be priced, and are the names of each distinct? */
  predicate EachDistinct(state: State, lots: seq<int>, spec: seq<StepSpec>, e: Engine) {
    forall i :: 0 <= i < |lots| ==>
      && BuildFor(state, lots[i], spec, e).Some? && lots[i] in state.lots
      && NamesDistinct(state.lots[lots[i]], BuildFor(state, lots[i], spec, e).value)
  }

  /**
   The result rows of a package have the key the containers are compared by exactly when no lot is asked for
   twice and each lot's labor kinds, months, suppliers and steps have distinct names.
   */
  lemma {:induction false} RowsKeyedExactly(state: State, lots: seq<int>, spec: seq<StepSpec>, e: Engine, count: nat)
    requires count <= |lots| && AllRows(state, lots, spec, e, count).Some?
    ensures IsKeyed(AllRows(state, lots, spec, e, count).value) <==>
      NoDuplicates(lots[..count]) && EachDistinct(state, lots[..count], spec, e)
  {
    hide BuildFor, LotRows, NamesDistinct, IsKeyed, NoneShared;
    if count == 0 {
      NoRowsKeyed();
    } else {
      var n := lots[count - 1];
      NewLotExactly(state, lots, spec, e, count - 1);
      RowsKeyedExactly(state, lots, spec, e, count - 1);
      var before := AllRows(state, lots, spec, e, count - 1).value;
      var build := BuildFor(state, n, spec, e).value;
      LotKeyedExactly(n, state.lots[n], build, e);
      KeyedTogether(before, LotRows(n, state.lots[n], build, e));
      assert lots[..count] == lots[..count - 1] + [n];
      OneMore(state, lots[..count - 1], n, spec, e);
    }
  }

  lemma NoRowsKeyed()
    ensures IsKeyed([])
  {
  }

  lemma OneMore(state: State, lots: seq<int>, n: int, spec: seq<StepSpec>, e: Engine)
    requires n in state.lots && BuildFor(state, n, spec, e).Some?
    ensures NoDuplicates(lots + [n]) <==> NoDuplicates(lots) && n !in lots
    ensures EachDistinct(state, lots + [n], spec, e) <==>
      EachDistinct(state, lots, spec, e) && NamesDistinct(state.lots[n], BuildFor(state, n, spec, e).value)
  {
    hide BuildFor, NamesDistinct;
    var more := lots + [n];
    assert more[|lots|] == n && forall i :: 0 <= i < |lots| ==> more[i] == lots[i];
  }
}
