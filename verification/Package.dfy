/**
 The verification package: `build_manifest`, `verify_manifest` and `build_package`. The manifest records
 what the engine computed; the recipient's copy recomputes it and reports every difference it looks for.
 */
module Package {
  import opened Options
  import opened Json
  import opened Pricing
  import opened Canvas

  // ---- the manifest

  datatype Inputs = Inputs(
    lot: int, quantity: int, fiscalYear: int, directLabor: string, material: string, otherDirect: string)

  datatype RatesText = RatesText(
    fiscalYear: int, vintage: string, fringe: string, overhead: string, generalAdmin: string,
    costOfMoney: string, profit: string, escalation: string)

  datatype StepText = StepText(
    name: string, rate: Option<string>, basis: Option<string>, amount: string, running: string)

  datatype Check = Check(
    lot: int, inputs: Inputs, rates: RatesText, steps: seq<StepText>, price: string, unitPrice: string)

  datatype Manifest = Manifest(composition: seq<StepSpec>, checks: seq<Check>)

  /** `_lot_inputs`. */
  function InputsOf(lot: Lot, n: int, e: Engine): Inputs {
    Inputs(n, lot.quantity, lot.fiscalYear, e.show(lot.directLabor), e.show(lot.material),
           e.show(e.add(e.add(lot.otherDirect, lot.warranty), lot.contracts)))
  }

  function RatesOf(r: Rates, e: Engine): RatesText {
    RatesText(r.fiscalYear, r.vintage, e.show(r.fringe), e.show(r.overhead), e.show(r.generalAdmin),
              e.show(r.costOfMoney), e.show(r.profit), e.show(r.escalation))
  }

  /** `_RateSetFromManifest`. */
  function RatesFrom(r: RatesText, e: Engine): Rates {
    Rates(r.fiscalYear, r.vintage, e.read(r.fringe), e.read(r.overhead), e.read(r.generalAdmin),
          e.read(r.costOfMoney), e.read(r.profit), e.read(r.escalation))
  }

  function Shown(d: Option<Decimal>, e: Engine): Option<string> {
    if d.None? then None else Some(e.show(d.value))
  }

  function StepOf(s: Step, e: Engine): StepText {
    StepText(s.name, Shown(s.rate, e), Shown(s.basis, e), e.show(s.amount), e.show(s.running))
  }

  function StepsOf(steps: seq<Step>, e: Engine): seq<StepText> {
    seq(|steps|, i requires 0 <= i < |steps| => StepOf(steps[i], e))
  }

  /** The price as the inputs and rates of a check give it. */
  function Recomputed(inputs: Inputs, rates: Rates, spec: seq<StepSpec>, e: Engine): BuildUp {
    e.compose(e.read(inputs.directLabor), e.read(inputs.material), e.read(inputs.otherDirect), rates, spec)
  }

  function CheckOf(lot: Lot, n: int, rates: Rates, spec: seq<StepSpec>, e: Engine): Check {
    var inputs := InputsOf(lot, n, e);
    var build := Recomputed(inputs, rates, spec, e);
    Check(n, inputs, RatesOf(rates, e), StepsOf(build.steps, e),
          e.show(build.price), e.show(e.unitPrice(build, lot.quantity)))
  }

  function CheckFor(state: State, n: int, vintage: Option<string>, spec: seq<StepSpec>, e: Engine): Option<Check> {
    if n !in state.lots then None
    else
      var rates := RatesFor(state, state.lots[n], vintage);
      if rates.None? then None else Some(CheckOf(state.lots[n], n, rates.value, spec, e))
  }

  /** The price of a lot at these rates, of the lot's own figures. */
  function PriceOf(lot: Lot, rates: Rates, spec: seq<StepSpec>, e: Engine): BuildUp {
    e.compose(lot.directLabor, lot.material, e.add(e.add(lot.otherDirect, lot.warranty), lot.contracts), rates, spec)
  }

  /** The figures a step is recorded with read back as the step. */
  ghost predicate StepSays(t: StepText, s: Step, e: Engine) {
    && t.name == s.name && e.read(t.amount) == s.amount && e.read(t.running) == s.running
    && (t.rate.Some? <==> s.rate.Some?) && (t.rate.Some? ==> e.read(t.rate.value) == s.rate.value)
    && (t.basis.Some? <==> s.basis.Some?) && (t.basis.Some? ==> e.read(t.basis.value) == s.basis.value)
  }

  ghost predicate RatesSay(t: RatesText, r: Rates, e: Engine) {
    && t.fiscalYear == r.fiscalYear && t.vintage == r.vintage
    && e.read(t.fringe) == r.fringe && e.read(t.overhead) == r.overhead && e.read(t.generalAdmin) == r.generalAdmin
    && e.read(t.costOfMoney) == r.costOfMoney && e.read(t.profit) == r.profit && e.read(t.escalation) == r.escalation
  }

  /**
   What a check records reads back as the lot's figures, the rates it was priced at, and every step, the price and the
   unit price these give; and there is no check exactly where the lot or its rates are not in the model.
   */
  lemma CheckReadsBack(state: State, n: int, vintage: Option<string>, spec: seq<StepSpec>, e: Engine)
    requires Faithful(e)
    ensures CheckFor(state, n, vintage, spec, e).Some? <==>
      n in state.lots && exists rates :: RatesFor(state, state.lots[n], vintage) == Some(rates)
    ensures forall rates :: n in state.lots && RatesFor(state, state.lots[n], vintage) == Some(rates) ==>
      var lot, build := state.lots[n], PriceOf(state.lots[n], rates, spec, e);
      var check := CheckFor(state, n, vintage, spec, e).value;
      && check.lot == n && check.inputs.lot == n
      && check.inputs.quantity == lot.quantity && check.inputs.fiscalYear == lot.fiscalYear
      && e.read(check.inputs.directLabor) == lot.directLabor && e.read(check.inputs.material) == lot.material
      && e.read(check.inputs.otherDirect) == e.add(e.add(lot.otherDirect, lot.warranty), lot.contracts)
      && RatesSay(check.rates, rates, e)
      && e.read(check.price) == build.price && e.read(check.unitPrice) == e.unitPrice(build, lot.quantity)
      && |check.steps| == |build.steps|
      && forall j :: 0 <= j < |build.steps| ==> StepSays(check.steps[j], build.steps[j], e)
  {
  }

  /** Is this the manifest the engine builds for these lots? */
  predicate BuiltFrom(m: Manifest, state: State, lots: seq<int>, vintage: Option<string>, e: Engine) {
    |m.checks| == |lots|
    && forall i :: 0 <= i < |lots| ==> CheckFor(state, lots[i], vintage, m.composition, e) == Some(m.checks[i])
  }

  /** `build_manifest`: one check for each lot, in order; None where a lot or its rates are not in the model. */
  method BuildManifest(state: State, lots: seq<int>, vintage: Option<string>, spec: seq<StepSpec>, e: Engine)
    returns (m: Option<Manifest>)
    ensures m.Some? <==> forall n :: n in lots ==> CheckFor(state, n, vintage, spec, e).Some?
    ensures m.Some? ==> m.value.composition == spec && BuiltFrom(m.value, state, lots, vintage, e)
  {
    var checks: seq<Check> := [];
    for i := 0 to |lots|
      invariant |checks| == i
      invariant forall j :: 0 <= j < i ==> CheckFor(state, lots[j], vintage, spec, e) == Some(checks[j])
    {
      var check := CheckFor(state, lots[i], vintage, spec, e);
      if check.None? {
        return None;
      }
      checks := checks + [check.value];
    }
    m := Some(Manifest(spec, checks));
  }

  // ---- verifying it

  datatype Problem = PriceDiffers(lot: int) | StepDiffers(lot: int, step: string)

  function BuildFrom(check: Check, spec: seq<StepSpec>, e: Engine): BuildUp {
    Recomputed(check.inputs, RatesFrom(check.rates, e), spec, e)
  }

  /** The steps compared: as many as both sides have. */
  function Shorter(check: Check, build: BuildUp): nat {
    if |build.steps| < |check.steps| then |build.steps| else |check.steps|
  }

  function StepProblems(check: Check, build: BuildUp, e: Engine, n: nat): seq<Problem>
    requires n <= Shorter(check, build)
  {
    if n == 0 then []
    else
      var before := StepProblems(check, build, e, n - 1);
      if e.show(build.steps[n - 1].amount) != check.steps[n - 1].amount
      then before + [StepDiffers(check.lot, check.steps[n - 1].name)] else before
  }

  function CheckProblems(check: Check, spec: seq<StepSpec>, e: Engine): seq<Problem> {
    var build := BuildFrom(check, spec, e);
    (if e.show(build.price) != check.price then [PriceDiffers(check.lot)] else [])
    + StepProblems(check, build, e, Shorter(check, build))
  }

  function Problems(m: Manifest, e: Engine, n: nat): seq<Problem>
    requires n <= |m.checks|
  {
    if n == 0 then [] else Problems(m, e, n - 1) + CheckProblems(m.checks[n - 1], m.composition, e)
  }

  /** `verify_manifest`. */
  method VerifyManifest(m: Manifest, e: Engine) returns (problems: seq<Problem>)
    ensures problems == Problems(m, e, |m.checks|)
  {
    hide BuildFrom;
    problems := [];
    for i := 0 to |m.checks|
      invariant problems == Problems(m, e, i)
    {
      var check := m.checks[i];
      var build := BuildFrom(check, m.composition, e);
      var found: seq<Problem> := if e.show(build.price) != check.price then [PriceDiffers(check.lot)] else [];
      var steps: seq<Problem> := [];
      for j := 0 to Shorter(check, build)
        invariant steps == StepProblems(check, build, e, j)
      {
        if e.show(build.steps[j].amount) != check.steps[j].amount {
          steps := steps + [StepDiffers(check.lot, check.steps[j].name)];
        }
      }
      problems := problems + (found + steps);
    }
  }

  /** Do the price and every step amount that is compared stand as the inputs give them? */
  predicate Agrees(check: Check, spec: seq<StepSpec>, e: Engine) {
    var build := BuildFrom(check, spec, e);
    && e.show(build.price) == check.price
    && forall j :: 0 <= j < Shorter(check, build) ==> e.show(build.steps[j].amount) == check.steps[j].amount
  }

  lemma {:induction false} NoStepProblem(check: Check, build: BuildUp, e: Engine, n: nat)
    requires n <= Shorter(check, build)
    ensures StepProblems(check, build, e, n) == [] <==>
      forall j :: 0 <= j < n ==> e.show(build.steps[j].amount) == check.steps[j].amount
  {
    if n > 0 {
      NoStepProblem(check, build, e, n - 1);
    }
  }

  lemma NoCheckProblem(check: Check, spec: seq<StepSpec>, e: Engine)
    ensures CheckProblems(check, spec, e) == [] <==> Agrees(check, spec, e)
  {
    var build := BuildFrom(check, spec, e);
    NoStepProblem(check, build, e, Shorter(check, build));
    hide BuildFrom;
  }

  /** Nothing is reported exactly when every check agrees with what its own inputs and rates give. */
  lemma {:induction false} NoProblemExactly(m: Manifest, e: Engine, n: nat)
    requires n <= |m.checks|
    ensures Problems(m, e, n) == [] <==> forall i :: 0 <= i < n ==> Agrees(m.checks[i], m.composition, e)
  {
    hide CheckProblems, Agrees;
    if n > 0 {
      NoProblemExactly(m, e, n - 1);
      NoCheckProblem(m.checks[n - 1], m.composition, e);
    }
  }

  /** The price of a check as its own figures give it. */
  ghost predicate PriceIsWrong(check: Check, spec: seq<StepSpec>, e: Engine) {
    check.price != e.show(BuildFrom(check, spec, e).price)
  }

  ghost predicate StepIsWrong(check: Check, spec: seq<StepSpec>, e: Engine, j: nat) {
    var steps := BuildFrom(check, spec, e).steps;
    j < |check.steps| && j < |steps| && check.steps[j].amount != e.show(steps[j].amount)
  }

  lemma {:induction false} StepsReported(check: Check, spec: seq<StepSpec>, e: Engine, n: nat, p: Problem)
    requires n <= Shorter(check, BuildFrom(check, spec, e))
    ensures p in StepProblems(check, BuildFrom(check, spec, e), e, n) <==>
      exists j: nat :: j < n && StepIsWrong(check, spec, e, j) && p == StepDiffers(check.lot, check.steps[j].name)
  {
    hide BuildFrom;
    if n > 0 {
      StepsReported(check, spec, e, n - 1, p);
      assert StepIsWrong(check, spec, e, n - 1) <==>
        e.show(BuildFrom(check, spec, e).steps[n - 1].amount) != check.steps[n - 1].amount;
    }
  }

  /** What is reported names the lot of the check whose price differs, and that lot and the step that differs. */
  lemma {:induction false} ProblemsExactly(m: Manifest, e: Engine, n: nat, p: Problem)
    requires n <= |m.checks|
    ensures p in Problems(m, e, n) <==> exists i: nat :: i < n && ReportedFor(m.checks[i], m.composition, e, p)
  {
    hide CheckProblems, ReportedFor;
    if n > 0 {
      ProblemsExactly(m, e, n - 1, p);
      CheckReported(m.checks[n - 1], m.composition, e, p);
    }
  }

  ghost predicate ReportedFor(check: Check, spec: seq<StepSpec>, e: Engine, p: Problem) {
    match p
    case PriceDiffers(lot) => lot == check.lot && PriceIsWrong(check, spec, e)
    case StepDiffers(lot, step) =>
      lot == check.lot && exists j: nat :: StepIsWrong(check, spec, e, j) && check.steps[j].name == step
  }

  lemma CheckReported(check: Check, spec: seq<StepSpec>, e: Engine, p: Problem)
    ensures p in CheckProblems(check, spec, e) <==> ReportedFor(check, spec, e, p)
  {
    var build := BuildFrom(check, spec, e);
    StepsReported(check, spec, e, Shorter(check, build), p);
    hide BuildFrom, StepProblems;
    if p.StepDiffers? {
      if j: nat :| StepIsWrong(check, spec, e, j) && check.steps[j].name == p.step {
        assert j < Shorter(check, build);
      }
    }
  }

  lemma RatesReadBack(r: Rates, e: Engine)
    requires Faithful(e)
    ensures RatesFrom(RatesOf(r, e), e) == r
  {
  }

  /** A check as the engine made it recomputes to what it records. */
  lemma CheckRecomputes(lot: Lot, n: int, rates: Rates, spec: seq<StepSpec>, e: Engine)
    requires Faithful(e)
    ensures var check := CheckOf(lot, n, rates, spec, e);
      var build := BuildFrom(check, spec, e);
      && Agrees(check, spec, e) && e.show(build.price) == check.price && StepsOf(build.steps, e) == check.steps
  {
    RatesReadBack(rates, e);
  }

  /** A manifest as the engine built it verifies. */
  lemma BuiltVerifies(m: Manifest, state: State, lots: seq<int>, vintage: Option<string>, e: Engine)
    requires Faithful(e) && BuiltFrom(m, state, lots, vintage, e)
    ensures Problems(m, e, |m.checks|) == []
  {
    forall i | 0 <= i < |m.checks| ensures Agrees(m.checks[i], m.composition, e) {
      var lot := state.lots[lots[i]];
      CheckRecomputes(lot, lots[i], RatesFor(state, lot, vintage).value, m.composition, e);
    }
    NoProblemExactly(m, e, |m.checks|);
  }

  /** The same lots, inputs and rates, with any figures recorded beside them. */
  predicate SameBasis(a: Manifest, b: Manifest) {
    && a.composition == b.composition && |a.checks| == |b.checks|
    && forall i :: 0 <= i < |a.checks| ==>
         a.checks[i].inputs == b.checks[i].inputs && a.checks[i].rates == b.checks[i].rates
  }

  /** Is each price, and each step amount both record, the same? */
  predicate SameFigures(a: Check, b: Check) {
    a.price == b.price
    && forall j :: 0 <= j < |a.steps| && j < |b.steps| ==> a.steps[j].amount == b.steps[j].amount
  }

  /**
   Figures altered after the manifest was built are reported exactly when a price differs, or a step amount
   within the steps both record. No other recorded figure is compared.
   */
  lemma TamperExactly(m: Manifest, altered: Manifest, state: State, lots: seq<int>, vintage: Option<string>, e: Engine)
    requires Faithful(e) && BuiltFrom(m, state, lots, vintage, e) && SameBasis(m, altered)
    ensures Problems(altered, e, |altered.checks|) == [] <==>
      forall i :: 0 <= i < |m.checks| ==> SameFigures(m.checks[i], altered.checks[i])
  {
    NoProblemExactly(altered, e, |altered.checks|);
    forall i | 0 <= i < |m.checks|
      ensures Agrees(altered.checks[i], m.composition, e) <==> SameFigures(m.checks[i], altered.checks[i])
    {
      var lot := state.lots[lots[i]];
      CheckRecomputes(lot, lots[i], RatesFor(state, lot, vintage).value, m.composition, e);
      AlteredAgrees(m.checks[i], altered.checks[i], m.composition, e);
    }
  }

  /** In every manifest the engine builds, any unit price can be altered and nothing is reported. */
  lemma UnitPriceIsNotCompared(m: Manifest, state: State, lots: seq<int>, vintage: Option<string>, e: Engine,
                               i: nat, unitPrice: string)
    requires Faithful(e) && BuiltFrom(m, state, lots, vintage, e)
    requires i < |m.checks| && unitPrice != m.checks[i].unitPrice
    ensures var altered := m.(checks := m.checks[i := m.checks[i].(unitPrice := unitPrice)]);
      altered != m && Problems(altered, e, |altered.checks|) == []
  {
    var altered := m.(checks := m.checks[i := m.checks[i].(unitPrice := unitPrice)]);
    hide BuiltFrom, Faithful, Problems;
    TamperExactly(m, altered, state, lots, vintage, e);
    assert altered.checks[i] != m.checks[i];
  }

  lemma AlteredAgrees(check: Check, altered: Check, spec: seq<StepSpec>, e: Engine)
    requires check.inputs == altered.inputs && check.rates == altered.rates
    requires var build := BuildFrom(check, spec, e);
      e.show(build.price) == check.price && StepsOf(build.steps, e) == check.steps
    ensures Agrees(altered, spec, e) <==> SameFigures(check, altered)
  {
    var build := BuildFrom(check, spec, e);
    forall j | 0 <= j < |check.steps| ensures check.steps[j].amount == e.show(build.steps[j].amount) {
      assert check.steps[j] == StepsOf(build.steps, e)[j];
    }
  }

  // ---- the package

  datatype PackageFault = UnknownRecipient | NoLotsEntitled | Outside(lots: set<int>)
    | EmptyLots | BadSections | NotPriced

  datatype Package = Package(lots: seq<int>, sections: seq<Section>, manifest: Manifest)

  datatype Built = Made(package: Package) | Refusal(fault: PackageFault)

  function SetOf<T(==)>(s: seq<T>): set<T> {
    set x | x in s
  }

  /** The lots a package carries: the entitled ones asked for, or all of them. */
  function LotsCarried(entitled: seq<int>, lots: Option<seq<int>>): seq<int> {
    if lots.None? then entitled else Within(entitled, SetOf(lots.value))
  }

  lemma CarriedExactly(entitled: seq<int>, lots: Option<seq<int>>)
    ensures InOrder(LotsCarried(entitled, lots), entitled)
    ensures forall n :: n in LotsCarried(entitled, lots) <==> n in entitled && (lots.None? || n in lots.value)
  {
    if lots.Some? {
      WithinHolds(entitled, SetOf(lots.value));
      WithinInOrder(entitled, SetOf(lots.value));
    } else {
      InOrderSelf(entitled);
    }
  }

  lemma {:induction false} InOrderSelf<T>(s: seq<T>)
    ensures InOrder(s, s)
  {
    if s != [] {
      InOrderSelf(s[..|s| - 1]);
    }
  }

  /** `build_package`, for a recipient entitled to these lots (None for a scope nobody has). */
  method BuildPackage(
    state: State, scope: Option<seq<int>>, lots: Option<seq<int>>, sections: Option<seq<Section>>,
    vintage: Option<string>, spec: seq<StepSpec>, e: Engine)
    returns (built: Built)
    ensures built.Made? ==>
      && scope.Some? && built.package.lots == LotsCarried(scope.value, lots)
      && InOrder(built.package.lots, scope.value)
      && (forall n :: n in built.package.lots <==> n in scope.value && (lots.None? || n in lots.value))
      && built.package.sections == Within(SECTIONS, SetOf(if sections.Some? then sections.value else SECTIONS))
      && built.package.manifest.composition == spec
      && BuiltFrom(built.package.manifest, state, built.package.lots, vintage, e)
    ensures built.Made? <==>
      && scope.Some? && scope.value != []
      && (lots.Some? ==> lots.value != [] && SetOf(lots.value) <= SetOf(scope.value))
      && (sections.Some? ==> sections.value != [])
      && (forall n :: n in LotsCarried(scope.value, lots) ==> CheckFor(state, n, vintage, spec, e).Some?)
    ensures built.Refusal? ==>
      match built.fault
      case UnknownRecipient => scope.None?
      case NoLotsEntitled => scope == Some([])
      case Outside(some) =>
        && scope.Some? && scope.value != [] && lots.Some? && some != {}
        && forall n :: n in some <==> n in lots.value && n !in scope.value
      case EmptyLots => scope.Some? && scope.value != [] && lots == Some([])
      case BadSections => sections == Some([])
      case NotPriced =>
        scope.Some? && exists n :: n in LotsCarried(scope.value, lots) && CheckFor(state, n, vintage, spec, e).None?
  {
    if scope.None? {
      return Refusal(UnknownRecipient);
    }
    var entitled := scope.value;
    CarriedExactly(entitled, lots);
    if entitled == [] {
      return Refusal(NoLotsEntitled);
    }
    if lots.Some? {
      var outside := SetOf(lots.value) - SetOf(entitled);
      if outside != {} {
        return Refusal(Outside(outside));
      }
      assert forall n :: n in SetOf(lots.value) && n !in SetOf(entitled) ==> n in outside;
      if lots.value == [] {
        return Refusal(EmptyLots);
      }
    }
    var carried := LotsCarried(entitled, lots);
    var shown := if sections.Some? then sections.value else SECTIONS;
    if shown == [] {
      return Refusal(BadSections);
    }
    var m := BuildManifest(state, carried, vintage, spec, e);
    if m.None? {
      return Refusal(NotPriced);
    }
    built := Made(Package(carried, Within(SECTIONS, SetOf(shown)), m.value));
  }

  // ---- from a canvas to a package that verifies

  lemma {:induction false} WithinTwice<T>(s: seq<T>, keep: set<T>, again: set<T>)
    requires forall x :: x in s ==> (x in again <==> x in keep)
    ensures Within(s, again) == Within(s, keep)
  {
    if s != [] {
      WithinTwice(s[..|s| - 1], keep, again);
    }
  }

  /** A package asked for the lots of an accepted canvas carries exactly those, in the same order. */
  lemma CanvasLotsCarried(canvas: Value, entitled: seq<int>)
    requires Resolved(canvas, entitled).Exported?
    ensures var lots := Resolved(canvas, entitled).disclosure.lots;
      lots != [] && SetOf(lots) <= SetOf(entitled) && LotsCarried(entitled, Some(lots)) == lots
  {
    ExportedFacts(canvas, entitled);
    var asked := Parse(Field(canvas.fields, ANSWERS).items, |Field(canvas.fields, ANSWERS).items|).asked;
    var keep := LotsOf(GoodOf(asked), entitled);
    WithinHolds(entitled, keep);
    hide GoodOf, Parse, ANSWERS;
    WithinTwice(entitled, keep, SetOf(Within(entitled, keep)));
  }

  /**
   From an accepted canvas whose lots are in the model and priced, the package is made, carries exactly the
   canvas's lots with one check for each in order, and its manifest verifies.
   */
  method ExportCanvas(
    canvas: Value, entitled: seq<int>, state: State, vintage: Option<string>, spec: seq<StepSpec>, e: Engine)
    returns (built: Built)
    requires Resolved(canvas, entitled).Exported? && Faithful(e)
    ensures var d := Resolved(canvas, entitled).disclosure;
      built.Made? <==> forall n :: n in d.lots ==> CheckFor(state, n, vintage, spec, e).Some?
    ensures var d := Resolved(canvas, entitled).disclosure;
      built.Made? ==>
        && built.package.lots == d.lots && |built.package.manifest.checks| == |d.lots|
        && (forall i :: 0 <= i < |d.lots| ==> built.package.manifest.checks[i].lot == d.lots[i])
        && Problems(built.package.manifest, e, |built.package.manifest.checks|) == []
  {
    hide Resolved, Problems;
    var outcome := Resolve(canvas, entitled);
    var d := outcome.disclosure;
    CanvasLotsCarried(canvas, entitled);
    CanvasShowsSections(canvas, entitled);
    built := BuildPackage(state, Some(entitled), Some(d.lots), Some(d.sections), vintage, spec, e);
    if built.Made? {
      BuiltVerifies(built.package.manifest, state, d.lots, vintage, e);
    }
  }

  /** Every exportable verb answers a section, so an accepted canvas shows one. */
  lemma CanvasShowsSections(canvas: Value, entitled: seq<int>)
    requires Resolved(canvas, entitled).Exported?
    ensures Resolved(canvas, entitled).disclosure.sections != []
  {
    var asked := Parse(Field(canvas.fields, ANSWERS).items, |Field(canvas.fields, ANSWERS).items|).asked;
    var good := GoodOf(asked);
    VerbsHaveSections();
    hide EXPORTABLE, Parse, ANSWERS;
    var a := good[0];
    assert a in good && VerbOf(a).sections != {};
    var s :| s in VerbOf(a).sections;
    assert s in SectionsOf(good);
    EverySectionShown(s);
    WithinHolds(SECTIONS, SectionsOf(good));
  }

  lemma VerbsHaveSections()
    ensures forall v :: v in EXPORTABLE ==> EXPORTABLE[v].sections != {}
  {
  }

  lemma EverySectionShown(s: Section)
    ensures s in SECTIONS
  {
    assert SECTIONS[0] == Labor && SECTIONS[1] == ProgramTrend && SECTIONS[2] == Composition;
    assert SECTIONS[3] == Sepm && SECTIONS[4] == Material && SECTIONS[5] == Scenario;
  }
}
