/**
 A canvas read as a disclosure: `_verb_local`, `_lot_number` and `resolve`. An answer is exported, refused
 by name, or refuses the whole canvas.
 */
module Canvas {
  import opened Options
  import opened Json
  import opened Texts

  datatype Spans = OneLot | Program | NoLot

  datatype Section = Labor | ProgramTrend | Composition | Sepm | Material | Scenario

  const SECTIONS: seq<Section> := [Labor, ProgramTrend, Composition, Sepm, Material, Scenario]

  datatype Verb = Verb(spans: Spans, sections: set<Section>)

  const EXPORTABLE: map<string, Verb> := map[
    "costLaborComposition" := Verb(OneLot, {Labor, Sepm}),
    "costUnitPriceTrend" := Verb(Program, {ProgramTrend}),
    "costPriceComposition" := Verb(OneLot, {Composition}),
    "costLotBreakdown" := Verb(OneLot, {Composition}),
    "costCategoryBreakdown" := Verb(OneLot, {Material}),
    "costRateComparison" := Verb(OneLot, {Material}),
    "costSupplierConcentration" := Verb(OneLot, {Material}),
    "costRateAssumptions" := Verb(NoLot, {Scenario})]

  const SHORT := "mesh:"
  const MESH := "http://invincible-agent/mesh#"

  /** `_verb_local`. */
  function VerbLocal(v: Value): Option<string> {
    if !v.Str? then None
    else
      var s := Strip(v.s);
      var local := if SHORT <= s then s[|SHORT|..] else if MESH <= s then s[|MESH|..] else [];
      if local == [] then None else Some(local)
  }

  /** `_lot_number`. */
  function LotNumber(v: Value): Option<int> {
    match v
    case Num(n) => Some(n)
    case Str(s) => if AllDigits(Strip(s)) then Some(ToInt(Strip(s))) else None
    case _ => None
  }

  /** One answer of the canvas, as far as it is read. */
  datatype Asked = Asked(id: string, verb: Option<string>, subject: Value)

  datatype Code = NoVerb | NotExportable | LotNotNamed

  datatype Refused = Refused(id: string, code: Code)

  datatype Fault =
    | NotACanvas | NoAnswers | NoId(place: nat) | Twice(id: string) | Unentitled(ids: set<string>)
    | NothingExportable(refused: seq<Refused>) | NoLots(refused: seq<Refused>)

  datatype Disclosure = Disclosure(lots: seq<int>, sections: seq<Section>, answers: seq<string>, refused: seq<Refused>)

  datatype Outcome = Exported(disclosure: Disclosure) | Faulted(fault: Fault)

  // ---- what the loops compute

  function Field(fields: map<string, Value>, key: string): Value {
    if key in fields then fields[key] else Null
  }

  const ID := "id"
  const VERB := "verb_iri"
  const SUBJECT := "subject_instance_id"
  const ANSWERS := "answers"

  /** The id of an answer that carries one. */
  function IdOf(v: Value): Option<string> {
    if v.Obj? && Field(v.fields, ID).Str? && Strip(Field(v.fields, ID).s) != []
    then Some(Field(v.fields, ID).s) else None
  }

  function Read(v: Value): Asked
    requires IdOf(v).Some?
  {
    Asked(IdOf(v).value, VerbLocal(Field(v.fields, VERB)), Field(v.fields, SUBJECT))
  }

  lemma ReadKeepsId(v: Value)
    requires IdOf(v).Some?
    ensures Read(v).id == IdOf(v).value
  {
  }

  datatype Parsed = Parsed(asked: seq<Asked>) | Malformed(fault: Fault)

  function Ids(asked: seq<Asked>): set<string> {
    set a | a in asked :: a.id
  }

  /** The first `n` answers, or the first fault among them. */
  function Parse(answers: seq<Value>, n: nat): (p: Parsed)
    requires n <= |answers|
    ensures p.Parsed? ==> |p.asked| == n
  {
    if n == 0 then Parsed([])
    else
      var before := Parse(answers, n - 1);
      var v := answers[n - 1];
      if before.Malformed? then before
      else if IdOf(v).None? then Malformed(NoId(n - 1))
      else if IdOf(v).value in Ids(before.asked) then Malformed(Twice(IdOf(v).value))
      else Parsed(before.asked + [Read(v)])
  }

  predicate LotBound(a: Asked) {
    a.verb.Some? && a.verb.value in EXPORTABLE && EXPORTABLE[a.verb.value].spans.OneLot?
  }

  /** An answer about a lot the recipient may not see. */
  predicate OutOfScope(a: Asked, entitled: seq<int>) {
    LotBound(a) && LotNumber(a.subject).Some? && LotNumber(a.subject).value !in entitled
  }

  function OutsideIds(asked: seq<Asked>, entitled: seq<int>): set<string> {
    set a | a in asked && OutOfScope(a, entitled) :: a.id
  }

  /** Why an answer is refused; None when it is exported. */
  function CodeOf(a: Asked): Option<Code> {
    if a.verb.None? then Some(NoVerb)
    else if a.verb.value !in EXPORTABLE then Some(NotExportable)
    else if LotBound(a) && LotNumber(a.subject).None? then Some(LotNotNamed)
    else None
  }

  function GoodOf(asked: seq<Asked>): (good: seq<Asked>)
    ensures forall a :: a in good <==> a in asked && CodeOf(a).None?
  {
    if asked == [] then []
    else
      var a := asked[|asked| - 1];
      var before := GoodOf(asked[..|asked| - 1]);
      assert asked == asked[..|asked| - 1] + [a];
      if CodeOf(a).None? then before + [a] else before
  }

  function RefusedOf(asked: seq<Asked>): seq<Refused> {
    if asked == [] then []
    else
      var a := asked[|asked| - 1];
      var before := RefusedOf(asked[..|asked| - 1]);
      if CodeOf(a).Some? then before + [Refused(a.id, CodeOf(a).value)] else before
  }

  function VerbOf(a: Asked): Verb
    requires CodeOf(a).None?
  {
    EXPORTABLE[a.verb.value]
  }

  /** The lots one exported answer is about. */
  function LotsOfOne(a: Asked, entitled: seq<int>): set<int>
    requires CodeOf(a).None?
  {
    match VerbOf(a).spans
    case OneLot => {LotNumber(a.subject).value}
    case Program => set n | n in entitled
    case NoLot => {}
  }

  function LotsOf(good: seq<Asked>, entitled: seq<int>): set<int>
    requires forall a :: a in good ==> CodeOf(a).None?
  {
    set a, n | a in good && n in LotsOfOne(a, entitled) :: n
  }

  function SectionsOf(good: seq<Asked>): set<Section>
    requires forall a :: a in good ==> CodeOf(a).None?
  {
    set a, s | a in good && s in VerbOf(a).sections :: s
  }

  /** The members of a sequence that are in a set, in the order of the sequence. */
  function Within<T(==)>(s: seq<T>, keep: set<T>): seq<T> {
    if s == [] then []
    else if s[|s| - 1] in keep then Within(s[..|s| - 1], keep) + [s[|s| - 1]]
    else Within(s[..|s| - 1], keep)
  }

  function IdsInOrder(asked: seq<Asked>): seq<string> {
    seq(|asked|, i requires 0 <= i < |asked| => asked[i].id)
  }

  function Settled(asked: seq<Asked>, entitled: seq<int>): Outcome {
    var good, refused := GoodOf(asked), RefusedOf(asked);
    if OutsideIds(asked, entitled) != {} then Faulted(Unentitled(OutsideIds(asked, entitled)))
    else if good == [] then Faulted(NothingExportable(refused))
    else if LotsOf(good, entitled) == {} then Faulted(NoLots(refused))
    else
      Exported(Disclosure(Within(entitled, LotsOf(good, entitled)), Within(SECTIONS, SectionsOf(good)),
                          IdsInOrder(good), refused))
  }

  predicate IsCanvas(canvas: Value) {
    canvas.Obj? && Field(canvas.fields, ANSWERS).Arr?
  }

  /** What a canvas comes to for a recipient entitled to these lots. */
  function Resolved(canvas: Value, entitled: seq<int>): Outcome {
    if !IsCanvas(canvas) then Faulted(NotACanvas)
    else
      var answers := Field(canvas.fields, ANSWERS).items;
      if answers == [] then Faulted(NoAnswers)
      else
        var p := Parse(answers, |answers|);
        if p.Malformed? then Faulted(p.fault) else Settled(p.asked, entitled)
  }

  // ---- the loops

  lemma {:induction false} MalformedStays(answers: seq<Value>, n: nat, m: nat)
    requires n <= m <= |answers| && Parse(answers, n).Malformed?
    ensures Parse(answers, m) == Parse(answers, n)
    decreases m
  {
    if n < m {
      MalformedStays(answers, n, m - 1);
    }
  }

  lemma IdsOneMore(asked: seq<Asked>, a: Asked)
    ensures Ids(asked + [a]) == Ids(asked) + {a.id}
  {
    assert forall b :: b in asked + [a] <==> b in asked || b == a;
  }

  method ParseAnswers(answers: seq<Value>) returns (p: Parsed)
    ensures p == Parse(answers, |answers|)
  {
    hide IdOf, Read;
    var parsed: seq<Asked> := [];
    var seen: set<string> := {};
    for i := 0 to |answers|
      invariant Parse(answers, i) == Parsed(parsed) && seen == Ids(parsed)
    {
      var id := IdOf(answers[i]);
      if id.None? {
        MalformedStays(answers, i + 1, |answers|);
        return Malformed(NoId(i));
      }
      if id.value in seen {
        MalformedStays(answers, i + 1, |answers|);
        return Malformed(Twice(id.value));
      }
      ReadKeepsId(answers[i]);
      ghost var before := parsed;
      seen := seen + {id.value};
      parsed := parsed + [Read(answers[i])];
      IdsOneMore(before, Read(answers[i]));
    }
    p := Parsed(parsed);
  }

  method Divide(asked: seq<Asked>) returns (good: seq<Asked>, refused: seq<Refused>)
    ensures good == GoodOf(asked) && refused == RefusedOf(asked)
  {
    hide CodeOf;
    good, refused := [], [];
    for i := 0 to |asked|
      invariant good == GoodOf(asked[..i]) && refused == RefusedOf(asked[..i])
    {
      assert asked[..i + 1][..i] == asked[..i];
      var code := CodeOf(asked[i]);
      if code.None? {
        good := good + [asked[i]];
      } else {
        refused := refused + [Refused(asked[i].id, code.value)];
      }
    }
    assert asked[..|asked|] == asked;
  }

  lemma GatherOne(good: seq<Asked>, a: Asked, entitled: seq<int>)
    requires forall b :: b in good + [a] ==> CodeOf(b).None?
    ensures LotsOf(good + [a], entitled) == LotsOf(good, entitled) + LotsOfOne(a, entitled)
    ensures SectionsOf(good + [a]) == SectionsOf(good) + VerbOf(a).sections
  {
    hide CodeOf, LotsOfOne, VerbOf;
    assert forall b :: b in good + [a] <==> b in good || b == a;
    forall n ensures n in LotsOf(good + [a], entitled) <==> n in LotsOf(good, entitled) || n in LotsOfOne(a, entitled) {
      assert a in good + [a];
    }
    forall s ensures s in SectionsOf(good + [a]) <==> s in SectionsOf(good) || s in VerbOf(a).sections {
      assert a in good + [a];
    }
  }

  method Gather(good: seq<Asked>, entitled: seq<int>) returns (lots: set<int>, sections: set<Section>)
    requires forall a :: a in good ==> CodeOf(a).None?
    ensures lots == LotsOf(good, entitled) && sections == SectionsOf(good)
  {
    hide CodeOf, LotsOfOne, VerbOf;
    lots, sections := {}, {};
    for i := 0 to |good|
      invariant lots == LotsOf(good[..i], entitled) && sections == SectionsOf(good[..i])
    {
      assert good[..i + 1] == good[..i] + [good[i]];
      GatherOne(good[..i], good[i], entitled);
      lots := lots + LotsOfOne(good[i], entitled);
      sections := sections + VerbOf(good[i]).sections;
    }
    assert good[..|good|] == good;
  }

  /** `resolve`: shape, then entitlement, then what can be exported. */
  method Resolve(canvas: Value, entitled: seq<int>) returns (outcome: Outcome)
    ensures outcome == Resolved(canvas, entitled)
  {
    if !IsCanvas(canvas) {
      return Faulted(NotACanvas);
    }
    var answers := Field(canvas.fields, ANSWERS).items;
    if answers == [] {
      return Faulted(NoAnswers);
    }
    hide EXPORTABLE, CodeOf, OutOfScope, Parse, GoodOf, RefusedOf;
    var p := ParseAnswers(answers);
    if p.Malformed? {
      return Faulted(p.fault);
    }
    var outside := OutsideIds(p.asked, entitled);
    if outside != {} {
      return Faulted(Unentitled(outside));
    }
    var good, refused := Divide(p.asked);
    if good == [] {
      return Faulted(NothingExportable(refused));
    }
    var lots, sections := Gather(good, entitled);
    if lots == {} {
      return Faulted(NoLots(refused));
    }
    outcome := Exported(Disclosure(Within(entitled, lots), Within(SECTIONS, sections), IdsInOrder(good), refused));
  }

  // ---- what an accepted canvas discloses

  lemma {:induction false} WithinHolds<T>(s: seq<T>, keep: set<T>)
    ensures forall x :: x in Within(s, keep) <==> x in s && x in keep
  {
    if s != [] {
      WithinHolds(s[..|s| - 1], keep);
      assert s == s[..|s| - 1] + [s[|s| - 1]];
    }
  }

  /** Is one sequence the other with some places left out? */
  predicate InOrder<T(==)>(part: seq<T>, whole: seq<T>)
    decreases |whole|
  {
    part == [] ||
    (whole != [] && (InOrder(part, whole[..|whole| - 1])
                     || (part[|part| - 1] == whole[|whole| - 1]
                         && InOrder(part[..|part| - 1], whole[..|whole| - 1]))))
  }

  lemma {:induction false} WithinInOrder<T>(s: seq<T>, keep: set<T>)
    ensures InOrder(Within(s, keep), s)
  {
    if s != [] {
      WithinInOrder(s[..|s| - 1], keep);
    }
  }

  function RefusedIds(refused: seq<Refused>): seq<string> {
    seq(|refused|, i requires 0 <= i < |refused| => refused[i].id)
  }

  lemma IdsAppend(asked: seq<Asked>, a: Asked)
    ensures IdsInOrder(asked + [a]) == IdsInOrder(asked) + [a.id]
  {
  }

  lemma RefusedAppend(refused: seq<Refused>, r: Refused)
    ensures RefusedIds(refused + [r]) == RefusedIds(refused) + [r.id]
  {
  }

  lemma InOrderGrows<T>(part: seq<T>, whole: seq<T>, x: T)
    requires InOrder(part, whole)
    ensures InOrder(part, whole + [x]) && InOrder(part + [x], whole + [x])
  {
    assert (whole + [x])[..|whole|] == whole && (part + [x])[..|part|] == part;
  }

  /** Every answer is exported or refused, once, and each list keeps the order of the canvas. */
  lemma {:induction false} AnswersSplit(asked: seq<Asked>)
    ensures multiset(IdsInOrder(GoodOf(asked))) + multiset(RefusedIds(RefusedOf(asked))) == multiset(IdsInOrder(asked))
    ensures InOrder(IdsInOrder(GoodOf(asked)), IdsInOrder(asked))
      && InOrder(RefusedIds(RefusedOf(asked)), IdsInOrder(asked))
  {
    hide CodeOf, InOrder, IdsInOrder, RefusedIds;
    if asked == [] {
      NoneSplit();
    } else {
      var front, a := asked[..|asked| - 1], asked[|asked| - 1];
      AnswersSplit(front);
      assert asked == front + [a];
      IdsAppend(front, a);
      if CodeOf(a).None? {
        IdsAppend(GoodOf(front), a);
        InOrderGrows(IdsInOrder(GoodOf(front)), IdsInOrder(front), a.id);
        InOrderGrows(RefusedIds(RefusedOf(front)), IdsInOrder(front), a.id);
      } else {
        var r := Refused(a.id, CodeOf(a).value);
        RefusedAppend(RefusedOf(front), r);
        InOrderGrows(IdsInOrder(GoodOf(front)), IdsInOrder(front), a.id);
        InOrderGrows(RefusedIds(RefusedOf(front)), IdsInOrder(front), a.id);
      }
    }
  }

  lemma NoneSplit()
    ensures IdsInOrder(GoodOf([])) == [] && RefusedIds(RefusedOf([])) == [] && IdsInOrder([]) == []
    ensures InOrder<string>([], [])
  {
  }

  /** Ids are read from the answers in order, each once. */
  lemma {:induction false} ParsedIds(answers: seq<Value>, n: nat)
    requires n <= |answers| && Parse(answers, n).Parsed?
    ensures var asked := Parse(answers, n).asked;
      && (forall i :: 0 <= i < n ==> IdOf(answers[i]).Some? && asked[i] == Read(answers[i]))
      && (forall i, j :: 0 <= i < j < n ==> asked[i].id != asked[j].id)
  {
    hide IdOf, Read;
    if n > 0 {
      ParsedIds(answers, n - 1);
      if IdOf(answers[n - 1]).Some? {
        ReadKeepsId(answers[n - 1]);
      }
      var asked := Parse(answers, n - 1).asked;
      assert forall i :: 0 <= i < n - 1 ==> asked[i] in asked && asked[i].id in Ids(asked);
    }
  }

  /** The answers of a canvas are taken exactly when each has an id and no two the same. */
  lemma {:induction false} ParsedExactly(answers: seq<Value>, n: nat)
    requires n <= |answers|
    ensures Parse(answers, n).Parsed? <==>
      && (forall i :: 0 <= i < n ==> IdOf(answers[i]).Some?)
      && (forall i, j :: 0 <= i < j < n ==> IdOf(answers[i]) != IdOf(answers[j]))
  {
    hide IdOf, Read;
    if n > 0 {
      ParsedExactly(answers, n - 1);
      if Parse(answers, n - 1).Parsed? {
        ParsedIds(answers, n - 1);
        forall i | 0 <= i < n - 1 ensures Read(answers[i]).id == IdOf(answers[i]).value {
          ReadKeepsId(answers[i]);
        }
        var asked := Parse(answers, n - 1).asked;
        forall id ensures id in Ids(asked) <==> exists i :: 0 <= i < n - 1 && IdOf(answers[i]) == Some(id) {
          if i :| 0 <= i < n - 1 && IdOf(answers[i]) == Some(id) {
            assert asked[i] in asked;
          }
        }
      }
    }
  }

  /** Does some exported answer disclose this lot? */
  predicate AsksFor(a: Asked, n: int, entitled: seq<int>) {
    CodeOf(a).None? && n in LotsOfOne(a, entitled)
  }

  /**
   An accepted canvas: its answers split into exported and refused; its lots are the entitled lots that an
   exported answer is about, in the entitled order; and no answer about one lot reaches outside them.
   */
  lemma ExportedFacts(canvas: Value, entitled: seq<int>)
    ensures Resolved(canvas, entitled).Exported? ==>
      var answers := Field(canvas.fields, ANSWERS).items;
      var asked := Parse(answers, |answers|).asked;
      var d := Resolved(canvas, entitled).disclosure;
      && IsCanvas(canvas) && Parse(answers, |answers|).Parsed?
      && multiset(d.answers) + multiset(RefusedIds(d.refused)) == multiset(IdsInOrder(asked))
      && d.answers != [] && d.lots != [] && InOrder(d.lots, entitled)
      && (forall n :: n in d.lots <==> n in entitled && exists a :: a in asked && AsksFor(a, n, entitled))
      && (forall a :: a in asked ==> !OutOfScope(a, entitled))
  {
    if Resolved(canvas, entitled).Exported? {
      hide CodeOf, OutOfScope, ANSWERS;
      var answers := Field(canvas.fields, ANSWERS).items;
      var asked := Parse(answers, |answers|).asked;
      var good := GoodOf(asked);
      var lots := LotsOf(good, entitled);
      AnswersSplit(asked);
      WithinHolds(entitled, lots);
      WithinInOrder(entitled, lots);
      forall a | a in asked ensures !OutOfScope(a, entitled) {
        assert OutOfScope(a, entitled) ==> a.id in OutsideIds(asked, entitled);
      }
      hide InOrder, Within, LotsOfOne, GoodOf, RefusedOf, Parse;
      forall n ensures n in lots <==> exists a :: a in asked && AsksFor(a, n, entitled) {
        if a :| a in asked && AsksFor(a, n, entitled) {
          assert a in good;
        }
      }
      var n :| n in lots;
      LotsAreEntitled(asked, entitled, n);
      assert n in Within(entitled, lots);
    }
  }

  /** With no answer out of scope, every lot asked for is entitled. */
  lemma LotsAreEntitled(asked: seq<Asked>, entitled: seq<int>, n: int)
    requires forall a :: a in asked ==> !OutOfScope(a, entitled)
    requires n in LotsOf(GoodOf(asked), entitled)
    ensures n in entitled
  {
    hide EXPORTABLE, LotNumber;
    var a :| a in GoodOf(asked) && n in LotsOfOne(a, entitled);
  }

  /** Entitlement is decided before exportability: one lot out of scope refuses the canvas, whatever else it holds. */
  lemma EntitlementComesFirst(canvas: Value, entitled: seq<int>)
    requires IsCanvas(canvas)
    ensures var answers := Field(canvas.fields, ANSWERS).items;
      var p := Parse(answers, |answers|);
      var outcome := Resolved(canvas, entitled);
      (outcome.Faulted? && outcome.fault.Unentitled? <==>
        p.Parsed? && exists a :: a in p.asked && OutOfScope(a, entitled))
  {
    hide CodeOf, OutOfScope, ANSWERS, GoodOf, RefusedOf, Within;
    var answers := Field(canvas.fields, ANSWERS).items;
    var p := Parse(answers, |answers|);
    if p.Parsed? {
      if a :| a in p.asked && OutOfScope(a, entitled) {
        assert a.id in OutsideIds(p.asked, entitled);
      }
    } else {
      ParseFaults(answers, |answers|);
    }
  }

  lemma {:induction false} ParseFaults(answers: seq<Value>, n: nat)
    requires n <= |answers| && Parse(answers, n).Malformed?
    ensures Parse(answers, n).fault.NoId? || Parse(answers, n).fault.Twice?
  {
    if Parse(answers, n - 1).Malformed? {
      ParseFaults(answers, n - 1);
    }
  }

  /** A canvas is accepted exactly when it is well formed, stays in scope, and some answer is about a lot. */
  lemma AcceptedExactly(canvas: Value, entitled: seq<int>)
    requires IsCanvas(canvas)
    ensures var answers := Field(canvas.fields, ANSWERS).items;
      var p := Parse(answers, |answers|);
      Resolved(canvas, entitled).Exported? <==>
        && p.Parsed?
        && (forall a :: a in p.asked ==> !OutOfScope(a, entitled))
        && (exists a, n :: a in p.asked && AsksFor(a, n, entitled))
  {
    hide CodeOf, OutOfScope, ANSWERS, Within, LotsOfOne;
    var answers := Field(canvas.fields, ANSWERS).items;
    var p := Parse(answers, |answers|);
    if p.Parsed? {
      assert OutsideIds(p.asked, entitled) == {} <==> forall a :: a in p.asked ==> !OutOfScope(a, entitled) by {
        forall a | a in p.asked && OutOfScope(a, entitled) ensures a.id in OutsideIds(p.asked, entitled) {
        }
      }
      var good := GoodOf(p.asked);
      hide Parse, RefusedOf;
      if a, n :| a in p.asked && AsksFor(a, n, entitled) {
        assert a in good && n in LotsOf(good, entitled);
      }
      if LotsOf(good, entitled) != {} {
        var n :| n in LotsOf(good, entitled);
        var a :| a in good && n in LotsOfOne(a, entitled);
        assert AsksFor(a, n, entitled);
      }
    }
  }

  /** The first `n` answers each have an id, and no two the same. */
  ghost predicate Identified(answers: seq<Value>, n: nat)
    requires n <= |answers|
  {
    && (forall i :: 0 <= i < n ==> IdOf(answers[i]).Some?)
    && (forall i, j :: 0 <= i < j < n ==> IdOf(answers[i]) != IdOf(answers[j]))
  }

  /** Answer `i` is the first at fault: it has no id, or one that came before. */
  ghost predicate FaultAt(answers: seq<Value>, i: nat, fault: Fault) {
    && i < |answers| && Identified(answers, i)
    && match IdOf(answers[i])
       case None => fault == NoId(i)
       case Some(id) => fault == Twice(id) && exists j: nat :: j < i && IdOf(answers[j]) == Some(id)
  }

  lemma FaultIsThere(answers: seq<Value>, n: nat)
    requires n < |answers| && Parse(answers, n).Parsed? && Parse(answers, n + 1).Malformed?
    ensures match IdOf(answers[n])
            case None => Parse(answers, n + 1).fault == NoId(n)
            case Some(id) =>
              Parse(answers, n + 1).fault == Twice(id) && exists j: nat :: j < n && IdOf(answers[j]) == Some(id)
  {
    hide IdOf, Read;
    ParsedIds(answers, n);
    var asked := Parse(answers, n).asked;
    if IdOf(answers[n]).Some? {
      var a :| a in asked && a.id == IdOf(answers[n]).value;
      var j: nat :| j < |asked| && asked[j] == a;
      ReadKeepsId(answers[j]);
      assert IdOf(answers[j]) == IdOf(answers[n]);
    }
  }

  /** The answers are refused with the fault of the first that has one. */
  lemma {:induction false} ParseFaultsExactly(answers: seq<Value>, n: nat)
    requires n <= |answers|
    ensures Parse(answers, n).Malformed? ==>
      exists i: nat :: i < n && FaultAt(answers, i, Parse(answers, n).fault)
  {
    hide IdOf, Read;
    if n > 0 {
      ParsedExactly(answers, n - 1);
      ParseFaultsExactly(answers, n - 1);
      if Parse(answers, n).Malformed? && Parse(answers, n - 1).Parsed? {
        FaultIsThere(answers, n - 1);
        hide Parse;
        assert FaultAt(answers, n - 1, Parse(answers, n).fault);
      }
    }
  }

  /** What a canvas is refused for, as decided: its shape, its answers, scope, then what can be exported. */
  lemma FaultExactly(canvas: Value, entitled: seq<int>)
    requires Resolved(canvas, entitled).Faulted?
    ensures var shaped := canvas.Obj? && "answers" in canvas.fields && canvas.fields["answers"].Arr?;
      var fault := Resolved(canvas, entitled).fault;
      && shaped == !fault.NotACanvas?
      && (shaped ==>
           (var answers := canvas.fields["answers"].items;
            && (fault.NoAnswers? <==> answers == [])
            && (fault.NoId? || fault.Twice? ==> exists i: nat :: FaultAt(answers, i, fault))
            && (!fault.NoAnswers? && !fault.NoId? && !fault.Twice? ==>
                 Parse(answers, |answers|).Parsed? && FaultOf(Parse(answers, |answers|).asked, entitled, fault))))
  {
    if IsCanvas(canvas) {
      var answers := Field(canvas.fields, ANSWERS).items;
      var p := Parse(answers, |answers|);
      if p.Malformed? {
        ParseFaultsExactly(answers, |answers|);
        hide IdOf, Parse;
      } else {
        SettledFaults(p.asked, entitled);
        hide Settled, Parse, IdOf, AsksFor, OutOfScope, RefusedFor;
      }
    }
  }

  /** What parsed answers are refused for, and with it the ids or the answers refused. */
  ghost predicate FaultOf(asked: seq<Asked>, entitled: seq<int>, fault: Fault) {
    match fault
    case Unentitled(ids) => ids != {} && Outside(asked, entitled, ids)
    case NothingExportable(refused) =>
      (forall a :: a in asked ==> exists code :: RefusedFor(a, code)) && AllRefused(asked, refused)
    case NoLots(refused) =>
      (forall a, n :: a in asked ==> !AsksFor(a, n, entitled)) && AllRefused(asked, refused)
    case _ => false
  }

  /** `ids` are the ids of the answers about a lot out of scope. */
  ghost predicate Outside(asked: seq<Asked>, entitled: seq<int>, ids: set<string>) {
    forall id :: id in ids <==> exists a :: a in asked && OutOfScope(a, entitled) && a.id == id
  }

  /** `refused` are the answers that cannot be exported, each with its code. */
  ghost predicate AllRefused(asked: seq<Asked>, refused: seq<Refused>) {
    forall r :: r in refused <==> exists a :: a in asked && RefusedFor(a, r.code) && a.id == r.id
  }

  lemma SettledFaults(asked: seq<Asked>, entitled: seq<int>)
    ensures Settled(asked, entitled).Faulted? ==> FaultOf(asked, entitled, Settled(asked, entitled).fault)
  {
    RefusedExactly(asked);
    forall a | a in asked ensures CodeOf(a).Some? ==> RefusedFor(a, CodeOf(a).value) {
      if CodeOf(a).Some? { CodesExactly(a, CodeOf(a).value); }
    }
    hide CodeOf, OutOfScope, RefusedFor, LotsOfOne, RefusedOf;
    var good := GoodOf(asked);
    if good == [] {
      forall a | a in asked ensures exists code :: RefusedFor(a, code) {
        assert a !in good;
      }
    }
    forall a, n | a in asked && AsksFor(a, n, entitled) ensures n in LotsOf(good, entitled) {
      assert a in good;
    }
  }

  // ---- what the fields of an answer mean

  /** Both spellings of a verb, with any space around them, name it. */
  lemma BothSpellings(left: string, local: string, right: string)
    requires AllSpace(left) && AllSpace(right) && local != [] && !IsSpace(local[|local| - 1])
    ensures VerbLocal(Str(left + (SHORT + local) + right)) == Some(local)
    ensures VerbLocal(Str(left + (MESH + local) + right)) == Some(local)
  {
    assert SHORT[0] == 'm' && MESH[0] == 'h' && !IsSpace('m') && !IsSpace('h') && |SHORT| > 0 && |MESH| > 0;
    hide SHORT, MESH, IsSpace;
    StripOf(left, SHORT + local, right);
    StripOf(left, MESH + local, right);
    hide Strip;
    assert (SHORT + local)[|SHORT|..] == local && (MESH + local)[|MESH|..] == local;
    assert !(SHORT <= MESH + local) by {
      assert (MESH + local)[0] == 'h';
    }
  }

  /** A lot's number reads back from a number and from its digits, with any space around them. */
  lemma LotNumberReadsBack(left: string, n: nat, right: string)
    requires AllSpace(left) && AllSpace(right)
    ensures LotNumber(Num(n)) == Some(n) && LotNumber(Str(left + Digits(n) + right)) == Some(n)
  {
    DigitsAreTrimmed(Digits(n));
    StripOf(left, Digits(n), right);
    DigitsReadBack(n);
    hide Strip, Digits, ToInt;
  }

  /** A verb is named exactly by either spelling of it, with any space around. */
  lemma VerbExactly(v: Value, local: string)
    ensures VerbLocal(v) == Some(local) <==>
      && v.Str? && local != []
      && (Strip(v.s) == "mesh:" + local || Strip(v.s) == "http://invincible-agent/mesh#" + local)
  {
    assert SHORT[0] == 'm' && MESH[0] == 'h';
    hide SHORT, MESH, Strip;
    if v.Str? {
      var s := Strip(v.s);
      Prefixed(SHORT, s, local);
      Prefixed(MESH, s, local);
      assert SHORT <= s ==> s[0] == 'm';
      assert MESH <= s ==> s[0] == 'h';
    }
    VerbSpellings(local);
  }

  lemma VerbSpellings(local: string)
    ensures "mesh:" + local == SHORT + local && "http://invincible-agent/mesh#" + local == MESH + local
    ensures |SHORT| > 0 && |MESH| > 0
  {
  }

  lemma Prefixed(prefix: string, s: string, local: string)
    ensures prefix <= s && s[|prefix|..] == local <==> s == prefix + local
  {
    if prefix <= s {
      assert s == prefix + s[|prefix|..];
    }
    if s == prefix + local {
      assert s[|prefix|..] == local;
    }
  }

  /** A lot is named by a whole number, or by its digits with any space around; by nothing else. */
  lemma LotNumberExactly(v: Value)
    ensures v.Num? ==> LotNumber(v) == Some(v.n)
    ensures !v.Num? && !v.Str? ==> LotNumber(v) == None
    ensures v.Str? ==>
      (LotNumber(v).Some? <==>
        Strip(v.s) != [] && forall i :: 0 <= i < |Strip(v.s)| ==> '0' <= Strip(v.s)[i] <= '9')
  {
    hide Strip, ToInt;
  }

  /** An answer's id is text that is not all space; and its verb and subject are what it has under their names. */
  lemma AnswerExactly(v: Value, id: string)
    ensures IdOf(v) == Some(id) <==> v.Obj? && "id" in v.fields && v.fields["id"] == Str(id) && !AllSpace(id)
    ensures IdOf(v) == Some(id) ==>
      var verb := if "verb_iri" in v.fields then v.fields["verb_iri"] else Null;
      var subject := if "subject_instance_id" in v.fields then v.fields["subject_instance_id"] else Null;
      Read(v) == Asked(id, VerbLocal(verb), subject)
  {
    if v.Obj? && Field(v.fields, ID).Str? {
      StripExactly(Field(v.fields, ID).s, []);
    }
    hide Strip, AllSpace, VerbLocal;
  }

  /** The verbs about one lot. */
  ghost predicate AboutOneLot(verb: string) {
    || verb == "costLaborComposition" || verb == "costPriceComposition" || verb == "costLotBreakdown"
    || verb == "costCategoryBreakdown" || verb == "costRateComparison" || verb == "costSupplierConcentration"
  }

  /** The verbs that are exported, what each spans, and the sections that answer it. */
  lemma VerbsExactly(verb: string)
    ensures verb in EXPORTABLE <==>
      AboutOneLot(verb) || verb == "costUnitPriceTrend" || verb == "costRateAssumptions"
    ensures verb in EXPORTABLE ==>
      && (EXPORTABLE[verb].spans.OneLot? <==> AboutOneLot(verb))
      && (EXPORTABLE[verb].spans.Program? <==> verb == "costUnitPriceTrend")
      && (EXPORTABLE[verb].spans.NoLot? <==> verb == "costRateAssumptions")
    ensures verb in EXPORTABLE ==>
      && (Labor in EXPORTABLE[verb].sections <==> verb == "costLaborComposition")
      && (Sepm in EXPORTABLE[verb].sections <==> verb == "costLaborComposition")
      && (ProgramTrend in EXPORTABLE[verb].sections <==> verb == "costUnitPriceTrend")
      && (Composition in EXPORTABLE[verb].sections <==>
            verb == "costPriceComposition" || verb == "costLotBreakdown")
      && (Material in EXPORTABLE[verb].sections <==>
            || verb == "costCategoryBreakdown" || verb == "costRateComparison"
            || verb == "costSupplierConcentration")
      && (Scenario in EXPORTABLE[verb].sections <==> verb == "costRateAssumptions")
  {
  }

  /** An answer is out of scope when its verb is about one lot and it names one the recipient may not see. */
  lemma OutOfScopeExactly(a: Asked, entitled: seq<int>)
    ensures OutOfScope(a, entitled) <==>
      && a.verb.Some? && AboutOneLot(a.verb.value)
      && exists n :: LotNumber(a.subject) == Some(n) && n !in entitled
  {
    if a.verb.Some? {
      VerbsExactly(a.verb.value);
    }
    hide EXPORTABLE, LotNumber, AboutOneLot;
  }

  /** An answer asks for a lot by naming it, when its verb is about one; the trend asks for every entitled one. */
  lemma AsksForExactly(a: Asked, n: int, entitled: seq<int>)
    ensures AsksFor(a, n, entitled) <==>
      && a.verb.Some?
      && ((AboutOneLot(a.verb.value) && LotNumber(a.subject) == Some(n))
          || (a.verb.value == "costUnitPriceTrend" && n in entitled))
  {
    if a.verb.Some? {
      VerbsExactly(a.verb.value);
    }
    hide EXPORTABLE, LotNumber;
  }

  /** What each refusal says is wrong: no verb, a verb that is not exported, or a lot that is not named. */
  predicate RefusedFor(a: Asked, code: Code) {
    match code
    case NoVerb => a.verb.None?
    case NotExportable => a.verb.Some? && a.verb.value !in EXPORTABLE
    case LotNotNamed => LotBound(a) && LotNumber(a.subject).None?
  }

  lemma CodesExactly(a: Asked, code: Code)
    ensures CodeOf(a) == Some(code) <==> RefusedFor(a, code)
  {
  }

  /** The sections shown are those some exported answer asks for, in page order; each refusal gives its reason. */
  lemma ShownAndRefused(canvas: Value, entitled: seq<int>)
    ensures Resolved(canvas, entitled).Exported? ==>
      var answers := Field(canvas.fields, ANSWERS).items;
      var asked := Parse(answers, |answers|).asked;
      var d := Resolved(canvas, entitled).disclosure;
      && InOrder(d.sections, SECTIONS)
      && (forall s :: s in d.sections <==>
            s in SECTIONS && exists a :: a in asked && CodeOf(a).None? && s in VerbOf(a).sections)
      && (forall r :: r in d.refused <==> exists a :: a in asked && RefusedFor(a, r.code) && a.id == r.id)
  {
    if Resolved(canvas, entitled).Exported? {
      hide CodeOf, RefusedFor, VerbOf, ANSWERS, SECTIONS;
      var asked := Parse(Field(canvas.fields, ANSWERS).items, |Field(canvas.fields, ANSWERS).items|).asked;
      var good := GoodOf(asked);
      WithinHolds(SECTIONS, SectionsOf(good));
      WithinInOrder(SECTIONS, SectionsOf(good));
      RefusedExactly(asked);
      hide InOrder, Within, RefusedOf, Parse;
      forall s ensures s in SectionsOf(good) <==> exists a :: a in asked && CodeOf(a).None? && s in VerbOf(a).sections {
        if a :| a in asked && CodeOf(a).None? && s in VerbOf(a).sections {
          assert a in good;
        }
      }
    }
  }

  lemma {:induction false} RefusedExactly(asked: seq<Asked>)
    ensures forall r :: r in RefusedOf(asked) <==> exists a :: a in asked && RefusedFor(a, r.code) && a.id == r.id
  {
    hide CodeOf, RefusedFor;
    if asked != [] {
      var front, last := asked[..|asked| - 1], asked[|asked| - 1];
      RefusedExactly(front);
      assert asked == front + [last];
      forall code ensures CodeOf(last) == Some(code) <==> RefusedFor(last, code) {
        CodesExactly(last, code);
      }
      forall r ensures r in RefusedOf(asked) <==> exists a :: a in asked && RefusedFor(a, r.code) && a.id == r.id {
        if r in RefusedOf(front) {
          var a :| a in front && RefusedFor(a, r.code) && a.id == r.id;
          assert a in asked;
        } else if a :| a in asked && RefusedFor(a, r.code) && a.id == r.id {
          assert a == last;
        }
      }
    }
  }

  /** A canvas of one answer about one lot. */
  function OneAnswer(id: string, verb: string, lot: int): Value {
    Obj(map[ANSWERS := Arr([Obj(map[ID := Str(id), VERB := Str(SHORT + verb), SUBJECT := Num(lot)])])])
  }

  lemma OneAnswerRead(id: string, verb: string, lot: int)
    requires Strip(id) != [] && verb != [] && !IsSpace(verb[|verb| - 1])
    ensures var answers := Field(OneAnswer(id, verb, lot).fields, ANSWERS);
      && answers.Arr? && |answers.items| == 1
      && IdOf(answers.items[0]) == Some(id) && Read(answers.items[0]) == Asked(id, Some(verb), Num(lot))
  {
    assert ID[0] == 'i' && VERB[0] == 'v' && SUBJECT[0] == 's';
    BothSpellings([], verb, []);
    assert [] + (SHORT + verb) + [] == SHORT + verb;
    hide Strip, SHORT, ID, VERB, SUBJECT, ANSWERS;
  }

  lemma OneAnswerParsed(id: string, verb: string, lot: int)
    requires Strip(id) != [] && verb != [] && !IsSpace(verb[|verb| - 1])
    ensures var canvas := OneAnswer(id, verb, lot);
      && IsCanvas(canvas)
      && Parse(Field(canvas.fields, ANSWERS).items, |Field(canvas.fields, ANSWERS).items|)
         == Parsed([Asked(id, Some(verb), Num(lot))])
  {
    OneAnswerRead(id, verb, lot);
    hide ANSWERS, IdOf, Strip, Read, OneAnswer;
    var answers := Field(OneAnswer(id, verb, lot).fields, ANSWERS).items;
    OneParsed(answers[0]);
    assert answers == [answers[0]];
  }

  lemma AsksForLot(id: string, verb: string, lot: int, entitled: seq<int>)
    requires verb in EXPORTABLE && EXPORTABLE[verb].spans.OneLot?
    ensures var a := Asked(id, Some(verb), Num(lot));
      (forall n :: AsksFor(a, n, entitled) <==> n == lot) && (OutOfScope(a, entitled) <==> lot !in entitled)
  {
    hide EXPORTABLE;
  }

  /**
   It is exported with that lot, when the verb is exportable and lot-bound and the lot is entitled; and refused
   else.
   */
  lemma OneAnswerExactly(id: string, verb: string, lot: int, entitled: seq<int>)
    requires Strip(id) != [] && verb != [] && !IsSpace(verb[|verb| - 1])
    requires verb in EXPORTABLE && EXPORTABLE[verb].spans.OneLot?
    ensures var outcome := Resolved(OneAnswer(id, verb, lot), entitled);
      && (outcome.Exported? <==> lot in entitled)
      && (outcome.Exported? ==>
            outcome.disclosure.answers == [id] && forall n :: n in outcome.disclosure.lots <==> n == lot)
  {
    var canvas := OneAnswer(id, verb, lot);
    var a := Asked(id, Some(verb), Num(lot));
    OneAnswerParsed(id, verb, lot);
    AsksForLot(id, verb, lot, entitled);
    hide EXPORTABLE, ANSWERS, Resolved, Parse, OneAnswer, AsksFor, OutOfScope,
      InOrder, IsCanvas, Strip, IsSpace, RefusedIds;
    AcceptedExactly(canvas, entitled);
    ExportedFacts(canvas, entitled);
    assert a in [a] && AsksFor(a, lot, entitled) && IdsInOrder([a]) == [id];
    var outcome := Resolved(canvas, entitled);
    if outcome.Exported? {
      OnlyId(outcome.disclosure.answers, RefusedIds(outcome.disclosure.refused), id);
    }
  }

  lemma OnlyId(answers: seq<string>, refused: seq<string>, id: string)
    requires multiset(answers) + multiset(refused) == multiset([id]) && answers != []
    ensures answers == [id]
  {
    assert |multiset(answers)| + |multiset(refused)| == 1;
    assert answers[0] in multiset(answers) + multiset(refused);
  }

  lemma OneParsed(v: Value)
    requires IdOf(v).Some?
    ensures Parse([v], 1) == Parsed([Read(v)])
  {
    hide IdOf, Read;
    assert Parse([v], 0) == Parsed([]);
  }
}
