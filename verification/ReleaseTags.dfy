/**
 A release tag never moves: what runs of the retag, interleaved with other pushes, keep of the registry,
 and what a manifest that exits clean says of it.
 */
module ReleaseTags {
  import opened Options
  import opened Basics
  import opened Retag
  import Texts

  // ---- what a service's two tags say, read off the registry

  /** A digest as it is written: `sha256:` and 64 digits. */
  ghost predicate Digest(s: string) {
    exists hex: string :: s == "sha256:" + hex && HexDigits(hex)
  }

  ghost predicate HexDigits(hex: string) {
    |hex| == 64 && forall i :: 0 <= i < 64 ==> '0' <= hex[i] <= '9' || 'a' <= hex[i] <= 'f'
  }

  lemma DigestExactly(s: string)
    ensures IsDigest(s) <==> Digest(s)
  {
    if IsDigest(s) {
      var hex := s[7..];
      assert s == "sha256:" + hex;
      forall i | 0 <= i < 64 ensures '0' <= hex[i] <= '9' || 'a' <= hex[i] <= 'f' {
        assert hex[i] == s[7 + i];
      }
    }
    if hex: string :| s == "sha256:" + hex && HexDigits(hex) {
      forall i | 7 <= i < |s| ensures Texts.Hex(s[i]) {
        assert s[i] == hex[i - 7];
      }
    }
  }

  /** The commit's tag of the service can be read and names this digest. */
  ghost predicate Source(tags: Tags, job: Job, svc: string, digest: string) {
    var t := Tag(svc, job.sha);
    job.readsSource(svc) && t in tags && tags[t] == digest && Digest(digest)
  }

  ghost predicate HasSource(tags: Tags, job: Job, svc: string) {
    exists digest :: Source(tags, job, svc, digest)
  }

  /** The release tag can be read, and is not there. */
  ghost predicate Unreleased(tags: Tags, job: Job, svc: string) {
    job.readsRelease(svc) && Tag(svc, job.version) !in tags
  }

  /** The release tag can be read and names this digest. */
  ghost predicate Released(tags: Tags, job: Job, svc: string, digest: string) {
    var t := Tag(svc, job.version);
    job.readsRelease(svc) && t in tags && tags[t] == digest && Digest(digest)
  }

  ghost predicate Conflicting(tags: Tags, job: Job, svc: string) {
    exists built, have :: Source(tags, job, svc, built) && Released(tags, job, svc, have) && have != built
  }

  /** The image is there, and its release tag neither reads as absent nor as a digest. */
  ghost predicate Untold(tags: Tags, job: Job, svc: string) {
    && HasSource(tags, job, svc) && !Unreleased(tags, job, svc)
    && forall digest :: !Released(tags, job, svc, digest)
  }

  /** The verdict on a service says what its two tags read as. */
  lemma VerdictExactly(tags: Tags, job: Job, svc: string)
    ensures VerdictOf(tags, job, svc).Missing? <==> !HasSource(tags, job, svc)
    ensures forall d :: VerdictOf(tags, job, svc) == ToTag(d) <==>
      Source(tags, job, svc, d) && Unreleased(tags, job, svc)
    ensures forall d :: VerdictOf(tags, job, svc) == Already(d) <==>
      Source(tags, job, svc, d) && Released(tags, job, svc, d)
    ensures VerdictOf(tags, job, svc).Conflict? <==> Conflicting(tags, job, svc)
    ensures VerdictOf(tags, job, svc).CannotTell? <==> Untold(tags, job, svc)
  {
    var source, release := Tag(svc, job.sha), Tag(svc, job.version);
    if source in tags { DigestExactly(tags[source]); }
    if release in tags { DigestExactly(tags[release]); }
    hide IsDigest, Digest;
    if job.readsSource(svc) && source in tags && IsDigest(tags[source]) {
      assert Source(tags, job, svc, tags[source]);
      if release in tags && job.readsRelease(svc) && IsDigest(tags[release]) {
        assert Released(tags, job, svc, tags[release]);
      }
    }
  }

  // ---- the plan is a partition of the services

  predicate Pinned(pins: seq<Pin>, svc: string) {
    exists i :: 0 <= i < |pins| && pins[i].service == svc
  }

  /** Each list holds exactly the services of its verdict, among the first `n`. */
  ghost predicate Divided(p: Plan, tags: Tags, job: Job, n: nat)
    requires n <= |job.services|
  {
    && (forall svc, d :: Pin(svc, d) in p.tag <==> svc in job.services[..n] && VerdictOf(tags, job, svc) == ToTag(d))
    && (forall svc, d :: Pin(svc, d) in p.already <==>
          svc in job.services[..n] && VerdictOf(tags, job, svc) == Already(d))
    && (forall svc :: svc in p.missing <==> svc in job.services[..n] && VerdictOf(tags, job, svc).Missing?)
    && (forall svc :: svc in p.conflicts <==> svc in job.services[..n] && VerdictOf(tags, job, svc).Conflict?)
    && (forall svc :: svc in p.unreadable <==> svc in job.services[..n] && VerdictOf(tags, job, svc).CannotTell?)
    && |p.tag| + |p.already| + |p.missing| + |p.conflicts| + |p.unreadable| == n
  }

  lemma {:induction false} PlanDivides(tags: Tags, job: Job, n: nat)
    requires n <= |job.services|
    ensures Divided(PlanOf(tags, job, n), tags, job, n)
  {
    hide VerdictOf, Divided, Placed;
    if n == 0 {
      NoneDivided(tags, job);
    } else {
      PlanDivides(tags, job, n - 1);
      PlacedDivides(PlanOf(tags, job, n - 1), tags, job, n - 1);
    }
  }

  lemma NoneDivided(tags: Tags, job: Job)
    ensures Divided(PlanOf(tags, job, 0), tags, job, 0)
  {
    hide VerdictOf;
  }

  lemma PlacedDivides(p: Plan, tags: Tags, job: Job, n: nat)
    requires n < |job.services| && Divided(p, tags, job, n)
    ensures Divided(Placed(p, job.services[n], VerdictOf(tags, job, job.services[n])), tags, job, n + 1)
  {
    hide VerdictOf;
    assert job.services[..n + 1] == job.services[..n] + [job.services[n]];
  }

  /** The plan is refused exactly when some service has no digest, has another, or cannot be read. */
  lemma RefusedExactly(tags: Tags, job: Job)
    ensures Refusal(Whole(tags, job)).None? <==>
      forall svc :: svc in job.services ==> VerdictOf(tags, job, svc).ToTag? || VerdictOf(tags, job, svc).Already?
  {
    hide VerdictOf;
    PlanDivides(tags, job, |job.services|);
    assert job.services[..|job.services|] == job.services;
    var p := Whole(tags, job);
    if p.conflicts != [] {
      assert p.conflicts[0] in p.conflicts;
    } else if p.unreadable != [] {
      assert p.unreadable[0] in p.unreadable;
    } else if p.missing != [] {
      assert p.missing[0] in p.missing;
    }
  }

  ghost predicate SomeConflict(tags: Tags, job: Job) {
    exists svc :: svc in job.services && Conflicting(tags, job, svc)
  }

  ghost predicate SomeUnreadable(tags: Tags, job: Job) {
    exists svc :: svc in job.services && Untold(tags, job, svc)
  }

  ghost predicate SomeMissing(tags: Tags, job: Job) {
    exists svc :: svc in job.services && !HasSource(tags, job, svc)
  }

  lemma SomeByVerdict(tags: Tags, job: Job)
    ensures SomeConflict(tags, job) <==> exists svc :: svc in job.services && VerdictOf(tags, job, svc).Conflict?
    ensures SomeUnreadable(tags, job) <==> exists svc :: svc in job.services && VerdictOf(tags, job, svc).CannotTell?
    ensures SomeMissing(tags, job) <==> exists svc :: svc in job.services && VerdictOf(tags, job, svc).Missing?
  {
    forall svc
      ensures VerdictOf(tags, job, svc).Conflict? <==> Conflicting(tags, job, svc)
      ensures VerdictOf(tags, job, svc).CannotTell? <==> Untold(tags, job, svc)
      ensures VerdictOf(tags, job, svc).Missing? <==> !HasSource(tags, job, svc)
    {
      VerdictExactly(tags, job, svc);
    }
    hide VerdictOf, Conflicting, Untold, HasSource;
  }

  /** The code says why: 4 for another digest, 1 for a tag that cannot be read, 3 for an image that is not there. */
  lemma RefusalCode(tags: Tags, job: Job)
    ensures Refusal(Whole(tags, job)) ==
      if SomeConflict(tags, job) then Some(4)
      else if SomeUnreadable(tags, job) then Some(1)
      else if SomeMissing(tags, job) then Some(3)
      else None
  {
    hide VerdictOf, SomeConflict, SomeUnreadable, SomeMissing;
    SomeByVerdict(tags, job);
    PlanDivides(tags, job, |job.services|);
    assert job.services[..|job.services|] == job.services;
    var p := Whole(tags, job);
    assert p.conflicts != [] ==> p.conflicts[0] in p.conflicts;
    assert p.unreadable != [] ==> p.unreadable[0] in p.unreadable;
    assert p.missing != [] ==> p.missing[0] in p.missing;
  }

  /** Some release tag that is to be made is not answered for. */
  ghost predicate SomeCreateFails(tags: Tags, job: Job) {
    !job.dryRun && exists svc :: svc in job.services && ToBeTagged(tags, job, svc) && job.creates(svc) != Took
  }

  ghost predicate ToBeTagged(tags: Tags, job: Job, svc: string) {
    HasSource(tags, job, svc) && Unreleased(tags, job, svc)
  }

  lemma ToBeTaggedExactly(tags: Tags, job: Job, svc: string)
    ensures ToBeTagged(tags, job, svc) <==> VerdictOf(tags, job, svc).ToTag?
  {
    VerdictExactly(tags, job, svc);
    hide VerdictOf, Unreleased, Source;
    var v := VerdictOf(tags, job, svc);
    assert v.ToTag? ==> v == ToTag(v.digest);
  }

  lemma {:induction false} FailedExactly(tags: Tags, job: Job, todo: seq<Pin>, already: seq<Pin>, n: nat)
    requires n <= |todo| && Written(tags, job, todo, already, n).alive
    ensures Written(tags, job, todo, already, n).failed == [] <==>
      job.dryRun || forall i :: 0 <= i < n ==> job.creates(todo[i].service).Took?
  {
    if n > 0 {
      FailedExactly(tags, job, todo, already, n - 1);
    }
  }

  /**
   The code a run exits with, by what is true of the registry and the creates; and where the plan is refused, the
   registry stays as it was.
   */
  lemma ExitExactly(tags: Tags, job: Job)
    requires Retagged(tags, job).1.Exit?
    ensures Retagged(tags, job).1.code ==
      if SomeConflict(tags, job) then 4
      else if SomeUnreadable(tags, job) then 1
      else if SomeMissing(tags, job) then 3
      else if SomeCreateFails(tags, job) then 1
      else 0
    ensures SomeConflict(tags, job) || SomeUnreadable(tags, job) || SomeMissing(tags, job) ==>
      Retagged(tags, job).0 == tags
  {
    RefusalCode(tags, job);
    PlanDivides(tags, job, |job.services|);
    assert job.services[..|job.services|] == job.services;
    hide VerdictOf, Whole, Refusal, SomeConflict, SomeUnreadable, SomeMissing, ToBeTagged;
    var p := Whole(tags, job);
    forall svc ensures ToBeTagged(tags, job, svc) <==> VerdictOf(tags, job, svc).ToTag? {
      ToBeTaggedExactly(tags, job, svc);
    }
    if Refusal(p).None? {
      FailedExactly(tags, job, p.tag, p.already, |p.tag|);
      if !job.dryRun {
        if svc :| svc in job.services && ToBeTagged(tags, job, svc) && job.creates(svc) != Took {
          assert Pin(svc, VerdictOf(tags, job, svc).digest) in p.tag;
        }
        forall i | 0 <= i < |p.tag| && !job.creates(p.tag[i].service).Took? ensures SomeCreateFails(tags, job) {
          assert Pin(p.tag[i].service, p.tag[i].digest) in p.tag;
        }
      }
    }
  }

  // ---- what a run that ends leaves and reports

  /** The first `n` pins of a list that is worked through: their creates were answered for, failed, or took. */
  lemma {:induction false} WrittenRows(tags: Tags, job: Job, todo: seq<Pin>, already: seq<Pin>, n: nat)
    requires n <= |todo| && Written(tags, job, todo, already, n).alive
    ensures var w := Written(tags, job, todo, already, n);
      && (forall pin :: pin in w.rows <==>
            pin in already || (pin in todo[..n] && (job.dryRun || job.creates(pin.service) == Took)))
      && (forall svc :: svc in w.failed <==>
            !job.dryRun && job.creates(svc) != Took && exists pin :: pin in todo[..n] && pin.service == svc)
  {
    if n > 0 {
      WrittenRows(tags, job, todo, already, n - 1);
      assert todo[..n] == todo[..n - 1] + [todo[n - 1]];
    }
  }

  /** A tag after the first `n`: as it was, or made for a pin of them and at its digest. */
  lemma {:induction false} WrittenTag(tags: Tags, job: Job, todo: seq<Pin>, already: seq<Pin>, n: nat, t: Tag)
    requires n <= |todo| && Written(tags, job, todo, already, n).alive
    ensures var w := Written(tags, job, todo, already, n);
      && (t in w.tags <==> t in tags || Made(job, todo[..n], t))
      && (t in w.tags ==>
            if Made(job, todo[..n], t)
            then exists pin :: pin in todo[..n] && pin.service == t.service && w.tags[t] == pin.digest
            else w.tags[t] == tags[t])
  {
    hide Made;
    if n > 0 {
      WrittenTag(tags, job, todo, already, n - 1, t);
      assert todo[..n] == todo[..n - 1] + [todo[n - 1]];
      MadeMore(job, todo[..n - 1], todo[n - 1], t);
      var before := Written(tags, job, todo, already, n - 1);
      if Made(job, todo[..n - 1], t) {
        var pin :| pin in todo[..n - 1] && pin.service == t.service && before.tags[t] == pin.digest;
        assert pin in todo[..n];
      }
      assert todo[n - 1] in todo[..n];
    } else {
      NoneMade(job, t);
    }
  }

  lemma NoneMade(job: Job, t: Tag)
    ensures !Made(job, [], t)
  {
  }

  lemma MadeMore(job: Job, done: seq<Pin>, pin: Pin, t: Tag)
    ensures Made(job, done + [pin], t) <==>
      Made(job, done, t) || (!job.dryRun && t == Tag(pin.service, job.version) && job.creates(pin.service) != Failed)
  {
    assert pin in done + [pin];
    assert forall x :: x in done + [pin] <==> x in done || x == pin;
  }

  /** Some create of the list made this tag. */
  ghost predicate Made(job: Job, done: seq<Pin>, t: Tag) {
    !job.dryRun && t.name == job.version && job.creates(t.service) != Failed
    && exists pin :: pin in done && pin.service == t.service
  }

  lemma PlanExactly(tags: Tags, job: Job)
    ensures var p := Whole(tags, job);
      && (forall svc, d :: Pin(svc, d) in p.tag <==>
            svc in job.services && Source(tags, job, svc, d) && Unreleased(tags, job, svc))
      && (forall svc, d :: Pin(svc, d) in p.already <==>
            svc in job.services && Source(tags, job, svc, d) && Released(tags, job, svc, d))
      && (forall svc :: svc in p.missing <==> svc in job.services && !HasSource(tags, job, svc))
      && (forall svc :: svc in p.conflicts <==> svc in job.services && Conflicting(tags, job, svc))
      && (forall svc :: svc in p.unreadable <==> svc in job.services && Untold(tags, job, svc))
  {
    PlanDivides(tags, job, |job.services|);
    assert job.services[..|job.services|] == job.services;
    forall svc
      ensures forall d :: VerdictOf(tags, job, svc) == ToTag(d) <==>
        Source(tags, job, svc, d) && Unreleased(tags, job, svc)
      ensures forall d :: VerdictOf(tags, job, svc) == Already(d) <==>
        Source(tags, job, svc, d) && Released(tags, job, svc, d)
      ensures VerdictOf(tags, job, svc).Missing? <==> !HasSource(tags, job, svc)
      ensures VerdictOf(tags, job, svc).Conflict? <==> Conflicting(tags, job, svc)
      ensures VerdictOf(tags, job, svc).CannotTell? <==> Untold(tags, job, svc)
    {
      VerdictExactly(tags, job, svc);
    }
    hide VerdictOf, Source, HasSource, Unreleased, Released, Conflicting, Untold, Whole;
  }

  ghost predicate IsRefused(tags: Tags, job: Job) {
    SomeConflict(tags, job) || SomeUnreadable(tags, job) || SomeMissing(tags, job)
  }

  /**
   The manifest of a run that ends, service by service: what was there already and what was made is pinned, and what
   is missing, in conflict or failed is named so, whatever the run exits with.
   */
  lemma ManifestExactly(tags: Tags, job: Job)
    requires Retagged(tags, job).1.Exit?
    ensures var m := Retagged(tags, job).1.manifest;
      && m.version == job.version && m.commit == job.sha && m.expected == |job.services|
      && (forall svc, d :: Pin(svc, d) in m.images <==>
            && svc in job.services && Source(tags, job, svc, d)
            && (Released(tags, job, svc, d)
                || (!IsRefused(tags, job) && Unreleased(tags, job, svc) && (job.dryRun || job.creates(svc) == Took))))
      && (forall svc :: svc in m.missing <==> svc in job.services && !HasSource(tags, job, svc))
      && (forall svc :: svc in m.conflicts <==> svc in job.services && Conflicting(tags, job, svc))
      && (forall svc :: svc in m.failed <==>
            && svc in job.services
            && (Untold(tags, job, svc)
                || (!IsRefused(tags, job) && !job.dryRun && ToBeTagged(tags, job, svc) && job.creates(svc) != Took)))
  {
    RefusalCode(tags, job);
    PlanExactly(tags, job);
    hide Source, HasSource, Unreleased, Released, Conflicting, Untold, Whole, SomeConflict, SomeUnreadable, SomeMissing,
      Refusal;
    var p := Whole(tags, job);
    assert p.tag[..|p.tag|] == p.tag;
    if !IsRefused(tags, job) {
      WrittenRows(tags, job, p.tag, p.already, |p.tag|);
      forall svc ensures (exists pin :: pin in p.tag && pin.service == svc) <==>
        svc in job.services && ToBeTagged(tags, job, svc)
      {
        TaggedService(tags, job, p.tag, svc);
      }
    }
    hide ToBeTagged, Written;
    assert forall svc, d :: Pin(svc, d).service == svc;
  }

  lemma TaggedService(tags: Tags, job: Job, pins: seq<Pin>, svc: string)
    requires forall s, d :: Pin(s, d) in pins <==>
      s in job.services && Source(tags, job, s, d) && Unreleased(tags, job, s)
    ensures (exists pin :: pin in pins && pin.service == svc) <==> svc in job.services && ToBeTagged(tags, job, svc)
  {
    hide Source, Unreleased;
    if pin :| pin in pins && pin.service == svc {
      assert Pin(pin.service, pin.digest) in pins;
    }
    if svc in job.services && ToBeTagged(tags, job, svc) {
      var d :| Source(tags, job, svc, d);
      assert Pin(svc, d) in pins && Pin(svc, d).service == svc;
    }
  }

  /** The registry such a run leaves: the release tags made, each at the commit's digest, and all else as it was. */
  lemma RegistryExactly(tags: Tags, job: Job, t: Tag)
    requires Retagged(tags, job).1.Exit?
    ensures var after := Retagged(tags, job).0;
      var made := !IsRefused(tags, job) && !job.dryRun && t.name == job.version && t.service in job.services
        && ToBeTagged(tags, job, t.service) && job.creates(t.service) != Failed;
      && (t in after <==> t in tags || made)
      && (t in after ==> if made then Source(tags, job, t.service, after[t]) else after[t] == tags[t])
  {
    RefusalCode(tags, job);
    PlanExactly(tags, job);
    hide Source, HasSource, Unreleased, Released, Conflicting, Untold, Whole, SomeConflict, SomeUnreadable, SomeMissing,
      Refusal;
    var p := Whole(tags, job);
    assert p.tag[..|p.tag|] == p.tag;
    if !IsRefused(tags, job) {
      WrittenTag(tags, job, p.tag, p.already, |p.tag|, t);
      TaggedService(tags, job, p.tag, t.service);
      if Made(job, p.tag, t) {
        var pin :| pin in p.tag && pin.service == t.service && Retagged(tags, job).0[t] == pin.digest;
        assert Pin(pin.service, pin.digest) in p.tag;
      }
    }
  }

  /** A run with no services does nothing; one dies only between creates. */
  lemma OtherEnds(tags: Tags, job: Job)
    ensures Retagged(tags, job).1.NoServices? <==> job.services == []
    ensures Retagged(tags, job).1.NoServices? ==> Retagged(tags, job).0 == tags
    ensures Retagged(tags, job).1.Died? ==> !IsRefused(tags, job) && !job.dryRun && job.dies.Some?
  {
    RefusalCode(tags, job);
    hide Whole, Refusal, SomeConflict, SomeUnreadable, SomeMissing;
    var p := Whole(tags, job);
    if job.dryRun {
      DryWrites(tags, job, p.tag, p.already, |p.tag|);
    }
    if job.dies.None? {
      NeverDies(tags, job, p.tag, p.already, |p.tag|);
    }
  }

  lemma {:induction false} NeverDies(tags: Tags, job: Job, todo: seq<Pin>, already: seq<Pin>, n: nat)
    requires n <= |todo| && job.dies.None?
    ensures Written(tags, job, todo, already, n).alive
  {
    if n > 0 {
      NeverDies(tags, job, todo, already, n - 1);
    }
  }

  // ---- no tag moves

  /** Every tag of the first registry is in the second, at the same digest. */
  predicate Keeps(a: Tags, b: Tags) {
    forall t :: t in a ==> t in b && b[t] == a[t]
  }

  /** The writes come from the list, and fall on tags that were absent. */
  lemma {:induction false} WritesKeep(tags: Tags, job: Job, todo: seq<Pin>, already: seq<Pin>, n: nat)
    requires n <= |todo|
    requires forall i :: 0 <= i < |todo| ==> Tag(todo[i].service, job.version) !in tags
    ensures Keeps(tags, Written(tags, job, todo, already, n).tags)
  {
    if n > 0 {
      WritesKeep(tags, job, todo, already, n - 1);
    }
  }

  lemma ToTagIsAbsent(tags: Tags, job: Job)
    ensures var p := Whole(tags, job);
      forall i :: 0 <= i < |p.tag| ==> Tag(p.tag[i].service, job.version) !in tags
  {
    var p := Whole(tags, job);
    PlanDivides(tags, job, |job.services|);
    forall i | 0 <= i < |p.tag| ensures Tag(p.tag[i].service, job.version) !in tags {
      assert Pin(p.tag[i].service, p.tag[i].digest) in p.tag;
    }
  }

  /** No run moves or removes any tag, wherever it dies and whichever creates fail. */
  lemma RunKeepsTags(tags: Tags, job: Job)
    ensures Keeps(tags, Retagged(tags, job).0)
  {
    var p := Whole(tags, job);
    ToTagIsAbsent(tags, job);
    WritesKeep(tags, job, p.tag, p.already, |p.tag|);
    hide Whole, Refusal;
  }

  /** What happens to the registry: a run, or anyone else's push. */
  datatype Event = Ran(job: Job) | Pushed(now: Tags)

  /** Others may push any tag, and make a release's where there is none; one that is there they leave alone. */
  ghost predicate Allowed(before: Tags, e: Event, releases: set<string>) {
    e.Ran? || forall t: Tag :: t.name in releases && t in before ==> t in e.now && e.now[t] == before[t]
  }

  function Step(tags: Tags, e: Event): Tags {
    match e
    case Ran(job) => Retagged(tags, job).0
    case Pushed(now) => now
  }

  function AfterAll(tags: Tags, events: seq<Event>): Tags
    decreases |events|
  {
    if events == [] then tags else AfterAll(Step(tags, events[0]), events[1..])
  }

  ghost predicate AllAllowed(tags: Tags, events: seq<Event>, releases: set<string>)
    decreases |events|
  {
    events == [] || (Allowed(tags, events[0], releases) && AllAllowed(Step(tags, events[0]), events[1..], releases))
  }

  /** Over any runs and any other pushes, a release tag once set keeps its digest. */
  lemma {:induction false} ReleaseTagNeverMoves(tags: Tags, events: seq<Event>, releases: set<string>, t: Tag)
    requires AllAllowed(tags, events, releases) && t.name in releases && t in tags
    ensures t in AfterAll(tags, events) && AfterAll(tags, events)[t] == tags[t]
    decreases |events|
  {
    if events != [] {
      if events[0].Ran? {
        RunKeepsTags(tags, events[0].job);
      }
      hide Retagged;
      ReleaseTagNeverMoves(Step(tags, events[0]), events[1..], releases, t);
    }
  }

  // ---- what a manifest says

  /** The services a list pins, each to one digest. */
  predicate DistinctPins(pins: seq<Pin>) {
    forall i, j :: 0 <= i < j < |pins| ==> pins[i].service != pins[j].service
  }

  function PinMap(pins: seq<Pin>): map<string, string> {
    if pins == [] then map[]
    else PinMap(pins[..|pins| - 1])[pins[|pins| - 1].service := pins[|pins| - 1].digest]
  }

  /** `^sha256:[0-9a-f]{64}$`: a digest, whether or not a line feed follows it. */
  predicate ReadsAsDigest(s: string) {
    IsDigest(s) || (s != [] && s[|s| - 1] == '\n' && IsDigest(s[..|s| - 1]))
  }

  /** What `ours_rows` asks of a manifest before it pins a release by it. */
  predicate Accepted(m: Manifest, services: seq<string>) {
    && m.missing == [] && m.failed == []
    && (forall svc :: svc in services ==> Pinned(m.images, svc)) && |m.images| >= |services|
    && (forall i :: 0 <= i < |m.images| ==> ReadsAsDigest(m.images[i].digest))
  }

  ghost predicate PinnedService(m: Manifest, svc: string) {
    exists digest :: Pin(svc, digest) in m.images
  }

  /** A digest, whether or not a line feed follows it. */
  ghost predicate DigestLine(s: string) {
    Digest(s) || exists d :: s == d + "\n" && Digest(d)
  }

  lemma DigestLineExactly(s: string)
    ensures ReadsAsDigest(s) <==> DigestLine(s)
  {
    DigestExactly(s);
    if s != [] && s[|s| - 1] == '\n' {
      DigestExactly(s[..|s| - 1]);
      assert s == s[..|s| - 1] + "\n";
    }
    if d :| s == d + "\n" && Digest(d) {
      assert s[..|s| - 1] == d;
    }
    hide IsDigest, Digest;
  }

  /** A manifest is refused exactly when an image is missing or failed, a pin is missing, or is no digest. */
  lemma AcceptedExactly(m: Manifest, services: seq<string>)
    ensures Accepted(m, services) <==>
      && |m.missing| == 0 && |m.failed| == 0
      && (forall svc :: svc in services ==> PinnedService(m, svc)) && |services| <= |m.images|
      && (forall pin :: pin in m.images ==> DigestLine(pin.digest))
  {
    hide ReadsAsDigest, DigestLine;
    forall i | 0 <= i < |m.images| ensures ReadsAsDigest(m.images[i].digest) <==> DigestLine(m.images[i].digest) {
      DigestLineExactly(m.images[i].digest);
    }
    forall svc ensures Pinned(m.images, svc) <==> PinnedService(m, svc) {
      if i :| 0 <= i < |m.images| && m.images[i].service == svc {
        assert Pin(svc, m.images[i].digest) in m.images;
      }
      if digest :| Pin(svc, digest) in m.images {
        var i :| 0 <= i < |m.images| && m.images[i] == Pin(svc, digest);
      }
    }
  }

  /** The rows are the pins, where no service is pinned twice. */
  lemma {:induction false} PinMapExactly(pins: seq<Pin>)
    requires DistinctPins(pins)
    ensures forall svc, d :: svc in PinMap(pins) && PinMap(pins)[svc] == d <==> Pin(svc, d) in pins
  {
    if pins != [] {
      var n := |pins| - 1;
      PinMapExactly(pins[..n]);
      assert pins == pins[..n] + [pins[n]];
      forall svc, d ensures svc in PinMap(pins) && PinMap(pins)[svc] == d <==> Pin(svc, d) in pins {
        if Pin(svc, d) in pins[..n] {
          var i :| 0 <= i < n && pins[i] == Pin(svc, d);
        }
      }
    }
  }

  /** `ours_rows`: the digests to pin, or a refusal. */
  method OursRows(m: Manifest, services: seq<string>) returns (rows: Option<map<string, string>>)
    ensures rows == if Accepted(m, services) then Some(PinMap(m.images)) else None
    ensures rows.Some? && DistinctPins(m.images) ==>
      forall svc, d :: svc in rows.value && rows.value[svc] == d <==> Pin(svc, d) in m.images
  {
    hide ReadsAsDigest;
    if DistinctPins(m.images) {
      PinMapExactly(m.images);
    }
    var good := m.missing == [] && m.failed == [] && |m.images| >= |services|;
    for i := 0 to |services|
      invariant good <==> (m.missing == [] && m.failed == [] && |m.images| >= |services|
                           && forall j :: 0 <= j < i ==> Pinned(m.images, services[j]))
    {
      good := good && Pinned(m.images, services[i]);
    }
    var pins: map<string, string> := map[];
    for i := 0 to |m.images|
      invariant pins == PinMap(m.images[..i])
      invariant good <==> (m.missing == [] && m.failed == [] && |m.images| >= |services|
                           && (forall svc :: svc in services ==> Pinned(m.images, svc))
                           && forall j :: 0 <= j < i ==> ReadsAsDigest(m.images[j].digest))
    {
      good := good && ReadsAsDigest(m.images[i].digest);
      pins := pins[m.images[i].service := m.images[i].digest];
      assert m.images[..i + 1][..i] == m.images[..i];
    }
    assert m.images[..|m.images|] == m.images;
    rows := if good then Some(pins) else None;
  }

  lemma {:induction false} CleanWrites(tags: Tags, job: Job, todo: seq<Pin>, already: seq<Pin>, n: nat)
    requires n <= |todo| && DistinctPins(todo)
    requires var w := Written(tags, job, todo, already, n); w.alive && w.failed == []
    ensures var w := Written(tags, job, todo, already, n);
      && w.rows == already + todo[..n]
      && (forall t :: t in tags ==> t in w.tags)
      && (!job.dryRun ==> forall i :: 0 <= i < n ==>
            var t := Tag(todo[i].service, job.version); t in w.tags && w.tags[t] == todo[i].digest)
  {
    if n > 0 {
      CleanWrites(tags, job, todo, already, n - 1);
      assert todo[..n] == todo[..n - 1] + [todo[n - 1]];
    }
  }

  /** A dry run writes nothing. */
  lemma {:induction false} DryWrites(tags: Tags, job: Job, todo: seq<Pin>, already: seq<Pin>, n: nat)
    requires n <= |todo| && job.dryRun
    ensures Written(tags, job, todo, already, n) == Writing(tags, already + todo[..n], [], true)
  {
    if n > 0 {
      DryWrites(tags, job, todo, already, n - 1);
      assert todo[..n] == todo[..n - 1] + [todo[n - 1]];
    } else {
      assert already + todo[..0] == already;
    }
  }

  lemma {:induction false} PlanPinsOnce(tags: Tags, job: Job, n: nat)
    requires n <= |job.services| && NoDuplicates(job.services)
    ensures DistinctPins(PlanOf(tags, job, n).tag) && DistinctPins(PlanOf(tags, job, n).already)
  {
    hide VerdictOf, Divided;
    if n > 0 {
      PlanPinsOnce(tags, job, n - 1);
      PlanPinsSome(tags, job, n - 1);
      assert forall j :: 0 <= j < n - 1 ==> job.services[j] != job.services[n - 1];
    }
  }

  /** Every pin of the plan so far is of a service so far. */
  lemma PlanPinsSome(tags: Tags, job: Job, n: nat)
    requires n <= |job.services|
    ensures var p := PlanOf(tags, job, n);
      && (forall i :: 0 <= i < |p.tag| ==> p.tag[i].service in job.services[..n])
      && (forall i :: 0 <= i < |p.already| ==> p.already[i].service in job.services[..n])
  {
    PlanDivides(tags, job, n);
    var p := PlanOf(tags, job, n);
    hide VerdictOf, PlanOf;
    forall i | 0 <= i < |p.tag| ensures p.tag[i].service in job.services[..n] {
      assert Pin(p.tag[i].service, p.tag[i].digest) in p.tag;
    }
    forall i | 0 <= i < |p.already| ensures p.already[i].service in job.services[..n] {
      assert Pin(p.already[i].service, p.already[i].digest) in p.already;
    }
  }

  /** A plan pins the digest the commit's own tag names, and what it finds already tagged is at that digest. */
  predicate Built(pin: Pin, tags: Tags, job: Job) {
    var source := Tag(pin.service, job.sha);
    pin.service in job.services && source in tags && tags[source] == pin.digest && IsDigest(pin.digest)
  }

  /** Does the release tag of this pin stand at its digest? */
  predicate Stands(pin: Pin, tags: Tags, version: string) {
    Tag(pin.service, version) in tags && tags[Tag(pin.service, version)] == pin.digest
  }

  lemma PlanPinsBuilt(tags: Tags, job: Job)
    ensures var p := Whole(tags, job);
      && (forall pin :: pin in p.tag ==> Built(pin, tags, job))
      && (forall pin :: pin in p.already ==> Built(pin, tags, job) && Stands(pin, tags, job.version))
  {
    PlanDivides(tags, job, |job.services|);
    assert job.services[..|job.services|] == job.services;
    var p := Whole(tags, job);
    forall pin | pin in p.tag ensures Built(pin, tags, job) {
      assert Pin(pin.service, pin.digest) in p.tag;
    }
    forall pin | pin in p.already
      ensures Built(pin, tags, job) && Stands(pin, tags, job.version)
    {
      assert Pin(pin.service, pin.digest) in p.already;
    }
  }

  lemma PlanPinsAll(tags: Tags, job: Job)
    requires Refusal(Whole(tags, job)).None?
    ensures var p := Whole(tags, job);
      && p.missing == [] && |p.already + p.tag| == |job.services|
      && (forall svc :: svc in job.services ==> Pinned(p.already + p.tag, svc))
  {
    hide VerdictOf;
    PlanDivides(tags, job, |job.services|);
    assert job.services[..|job.services|] == job.services;
    RefusedExactly(tags, job);
    var p := Whole(tags, job);
    forall svc | svc in job.services ensures Pinned(p.already + p.tag, svc) {
      var v := VerdictOf(tags, job, svc);
      assert Pin(svc, v.digest) in p.already + p.tag;
      var i :| 0 <= i < |p.already + p.tag| && (p.already + p.tag)[i] == Pin(svc, v.digest);
      assert (p.already + p.tag)[i].service == svc;
    }
  }

  /**
   A run that exits 0 leaves a manifest that is accepted and pins every service to the digest the commit's
   tag named; each release tag then stands at its pin, unless the run was dry and the tag was not there.
   */
  lemma CleanExit(tags: Tags, job: Job)
    requires NoDuplicates(job.services) && Retagged(tags, job).1.Exit? && Retagged(tags, job).1.code == 0
    ensures var m := Retagged(tags, job).1.manifest;
      && Accepted(m, job.services)
      && m.version == job.version && m.images == Whole(tags, job).already + Whole(tags, job).tag
      && (forall pin :: pin in m.images ==> Built(pin, tags, job))
      && (!job.dryRun ==> forall pin :: pin in m.images ==> Stands(pin, Retagged(tags, job).0, job.version))
  {
    var p := Whole(tags, job);
    PlanPinsBuilt(tags, job);
    PlanPinsAll(tags, job);
    PlanPinsOnce(tags, job, |job.services|);
    hide Whole, Built, IsDigest;
    CleanWrites(tags, job, p.tag, p.already, |p.tag|);
    RunKeepsTags(tags, job);
    var after, m := Retagged(tags, job).0, Retagged(tags, job).1.manifest;
    assert m.images == p.already + p.tag;
    forall i | 0 <= i < |m.images| ensures IsDigest(m.images[i].digest) {
      BuiltIsDigest(m.images[i], tags, job);
    }
    if !job.dryRun {
      forall pin | pin in m.images ensures Stands(pin, after, job.version) {
      }
    }
  }

  lemma BuiltIsDigest(pin: Pin, tags: Tags, job: Job)
    requires Built(pin, tags, job)
    ensures IsDigest(pin.digest)
  {
  }

  /** Two runs of one version that exit 0 pin one digest for each service, whatever happened between them. */
  lemma OneVersionOneDigest(tags: Tags, first: Job, between: seq<Event>, second: Job,
                        releases: set<string>, a: Pin, b: Pin)
    requires NoDuplicates(first.services) && NoDuplicates(second.services) && !first.dryRun && !second.dryRun
    requires first.version == second.version && first.version in releases
    requires Retagged(tags, first).1.Exit? && Retagged(tags, first).1.code == 0
    requires var mid := Retagged(tags, first).0;
      AllAllowed(mid, between, releases)
      && Retagged(AfterAll(mid, between), second).1.Exit? && Retagged(AfterAll(mid, between), second).1.code == 0
      && b in Retagged(AfterAll(mid, between), second).1.manifest.images
    requires a in Retagged(tags, first).1.manifest.images && a.service == b.service
    ensures a.digest == b.digest
  {
    hide Accepted, Built;
    var mid := Retagged(tags, first).0;
    var late := AfterAll(mid, between);
    CleanExit(tags, first);
    ReleaseTagNeverMoves(mid, between, releases, Tag(a.service, first.version));
    CleanExit(late, second);
    RunKeepsTags(late, second);
    hide Retagged;
    assert Stands(a, mid, first.version) && Stands(b, Retagged(late, second).0, first.version);
  }

  // ---- reading the tags back

  function MismatchesOf(tags: Tags, m: Manifest, readable: string -> bool, n: nat): seq<string>
    requires n <= |m.images|
  {
    if n == 0 then []
    else
      var pin := m.images[n - 1];
      var before := MismatchesOf(tags, m, readable, n - 1);
      if Resolve(tags, Tag(pin.service, m.version), readable(pin.service)) != Some(pin.digest)
      then before + [pin.service] else before
  }

  /** `mismatches`. */
  method Mismatches(tags: Tags, m: Manifest, readable: string -> bool) returns (probs: seq<string>)
    ensures probs == MismatchesOf(tags, m, readable, |m.images|)
  {
    probs := [];
    for i := 0 to |m.images|
      invariant probs == MismatchesOf(tags, m, readable, i)
    {
      var got := Resolve(tags, Tag(m.images[i].service, m.version), readable(m.images[i].service));
      if got != Some(m.images[i].digest) {
        probs := probs + [m.images[i].service];
      }
    }
  }

  predicate ReadsBack(pin: Pin, tags: Tags, version: string, readable: string -> bool) {
    readable(pin.service) && Stands(pin, tags, version) && IsDigest(pin.digest)
  }

  /** Nothing differs exactly when every pin's tag can be read and stands at it. */
  lemma {:induction false} NoMismatchExactly(tags: Tags, m: Manifest, readable: string -> bool, n: nat)
    requires n <= |m.images|
    ensures MismatchesOf(tags, m, readable, n) == [] <==>
      forall i :: 0 <= i < n ==> ReadsBack(m.images[i], tags, m.version, readable)
  {
    hide IsDigest;
    if n > 0 {
      NoMismatchExactly(tags, m, readable, n - 1);
    }
  }

  /** The digest with one character changed. */
  function Wrong(digest: string): string
    requires |digest| > 7
  {
    digest[7 := if digest[7] != '1' then '1' else '2']
  }

  /** References that must not resolve: a digest nobody holds, the short commit, and a tag never pushed. */
  predicate ControlResolves(tags: Tags, m: Manifest, readable: string -> bool, fakeHeld: bool)
    requires m.images != []
  {
    var svc := m.images[0].service;
    var short := if |m.commit| < 8 then m.commit else m.commit[..8];
    || fakeHeld
    || Resolve(tags, Tag(svc, short), readable(svc)).Some?
    || Resolve(tags, Tag(svc, m.version + "-control-never-pushed"), readable(svc)).Some?
  }

  /** `verify`: the code it exits with. */
  function Verify(tags: Tags, m: Manifest, version: string, readable: string -> bool, fakeHeld: bool): int
    requires m.images != [] ==> |m.images[0].digest| > 7
  {
    if m.version != version || (m.images == [] && m.missing == []) then 2
    else if m.images == [] then 3
    else
      var wrong := m.(images := [Pin(m.images[0].service, Wrong(m.images[0].digest))]);
      if MismatchesOf(tags, m, readable, |m.images|) != [] || ControlResolves(tags, m, readable, fakeHeld)
         || MismatchesOf(tags, wrong, readable, 1) == [] then 1
      else if m.missing != [] then 3
      else 0
  }

  /** The tag of the service can be read and names a digest. */
  ghost predicate Names(tags: Tags, svc: string, name: string, readable: string -> bool) {
    readable(svc) && Tag(svc, name) in tags && Digest(tags[Tag(svc, name)])
  }

  /** A reference that must not resolve does: the fake digest, the commit cut to eight, or a tag never pushed. */
  ghost predicate SomeControl(tags: Tags, m: Manifest, readable: string -> bool, fakeHeld: bool)
    requires m.images != []
  {
    var svc := m.images[0].service;
    || fakeHeld
    || (exists short, rest :: m.commit == short + rest && (|short| == 8 || (|short| < 8 && rest == ""))
          && Names(tags, svc, short, readable))
    || Names(tags, svc, m.version + "-control-never-pushed", readable)
  }

  lemma ControlExactly(tags: Tags, m: Manifest, readable: string -> bool, fakeHeld: bool)
    requires m.images != []
    ensures ControlResolves(tags, m, readable, fakeHeld) <==> SomeControl(tags, m, readable, fakeHeld)
  {
    var svc := m.images[0].service;
    var short := if |m.commit| < 8 then m.commit else m.commit[..8];
    ResolvesExactly(tags, svc, short, readable);
    ResolvesExactly(tags, svc, m.version + "-control-never-pushed", readable);
    hide Resolve, Names;
    assert m.commit == short + m.commit[|short|..];
    forall s, rest | m.commit == s + rest && (|s| == 8 || (|s| < 8 && rest == "")) ensures s == short {
      assert m.commit[..|s|] == s;
    }
  }

  lemma ResolvesExactly(tags: Tags, svc: string, name: string, readable: string -> bool)
    ensures Resolve(tags, Tag(svc, name), readable(svc)).Some? <==> Names(tags, svc, name, readable)
  {
    if Tag(svc, name) in tags {
      DigestExactly(tags[Tag(svc, name)]);
    }
    hide IsDigest, Digest;
  }

  /** The release tag of this pin can be read and names its digest. */
  ghost predicate TagStands(pin: Pin, tags: Tags, version: string, readable: string -> bool) {
    var t := Tag(pin.service, version);
    readable(pin.service) && t in tags && tags[t] == pin.digest && Digest(pin.digest)
  }

  /** Every release tag stands at its pin, and no control resolves. */
  ghost predicate Proven(tags: Tags, m: Manifest, readable: string -> bool, fakeHeld: bool)
    requires m.images != []
  {
    && (forall i :: 0 <= i < |m.images| ==> TagStands(m.images[i], tags, m.version, readable))
    && !SomeControl(tags, m, readable, fakeHeld)
  }

  /**
   The code `verify` exits with: 2 for a manifest of another version, or of nothing; 1 where some tag does not stand or
   some control resolves; 3 where an image is missing, and else 0.
   */
  lemma VerifyExactly(tags: Tags, m: Manifest, version: string, readable: string -> bool, fakeHeld: bool)
    requires m.images != [] ==> |m.images[0].digest| > 7
    ensures Verify(tags, m, version, readable, fakeHeld) ==
      if m.version != version || (m.images == [] && m.missing == []) then 2
      else if m.images != [] && !Proven(tags, m, readable, fakeHeld) then 1
      else if m.missing != [] then 3
      else 0
  {
    NoMismatchExactly(tags, m, readable, |m.images|);
    forall i | 0 <= i < |m.images|
      ensures ReadsBack(m.images[i], tags, m.version, readable) <==> TagStands(m.images[i], tags, m.version, readable)
    {
      DigestExactly(m.images[i].digest);
    }
    if m.images != [] {
      ControlExactly(tags, m, readable, fakeHeld);
    }
    hide SomeControl, Digest, TagStands;
    if m.images != [] {
      var first := m.images[0];
      var wrong := m.(images := [Pin(first.service, Wrong(first.digest))]);
      NoMismatchExactly(tags, wrong, readable, 1);
      assert Wrong(first.digest)[7] != first.digest[7];
    }
    hide IsDigest, MismatchesOf, ControlResolves;
  }

  /** After a clean exit that was not a dry run, the tags read back, and `verify` exits 0 if no control resolves. */
  lemma CleanExitReadsBack(tags: Tags, job: Job, readable: string -> bool)
    requires NoDuplicates(job.services) && !job.dryRun
    requires Retagged(tags, job).1.Exit? && Retagged(tags, job).1.code == 0
    requires forall svc :: svc in job.services ==> readable(svc)
    ensures var m := Retagged(tags, job).1.manifest;
      && MismatchesOf(Retagged(tags, job).0, m, readable, |m.images|) == []
      && m.images != [] && |m.images[0].digest| > 7
      && (!ControlResolves(Retagged(tags, job).0, m, readable, false) ==>
            Verify(Retagged(tags, job).0, m, job.version, readable, false) == 0)
  {
    CleanExit(tags, job);
    var after, m := Retagged(tags, job).0, Retagged(tags, job).1.manifest;
    assert job.services != [];
    hide Retagged, Accepted, Verify, ControlResolves, Stands;
    forall i | 0 <= i < |m.images| ensures ReadsBack(m.images[i], after, job.version, readable) {
      assert m.images[i] in m.images;
      BuiltIsDigest(m.images[i], tags, job);
    }
    assert m.images != [] by {
      SomethingPinned(m, job.services);
    }
    assert IsDigest(m.images[0].digest);
    NoMismatchExactly(after, m, readable, |m.images|);
    VerifyExactly(after, m, job.version, readable, false);
    assert m.missing == [] by {
      AcceptedIsWhole(m, job.services);
    }
  }

  lemma SomethingPinned(m: Manifest, services: seq<string>)
    requires Accepted(m, services) && services != []
    ensures m.images != []
  {
    assert Pinned(m.images, services[0]);
  }

  lemma AcceptedIsWhole(m: Manifest, services: seq<string>)
    requires Accepted(m, services)
    ensures m.missing == []
  {
  }

  /** A dry run that exits 0 also leaves a manifest that is accepted; its tags all stand only if none was to be made. */
  lemma DryRunExactly(tags: Tags, job: Job)
    requires NoDuplicates(job.services) && job.dryRun && Retagged(tags, job).1.Exit? && Retagged(tags, job).1.code == 0
    ensures var m := Retagged(tags, job).1.manifest;
      && Accepted(m, job.services) && Retagged(tags, job).0 == tags
      && ((forall pin :: pin in m.images ==> Stands(pin, tags, job.version)) <==> Whole(tags, job).tag == [])
  {
    var p := Whole(tags, job);
    CleanExit(tags, job);
    DryWrites(tags, job, p.tag, p.already, |p.tag|);
    ToTagIsAbsent(tags, job);
    PlanPinsBuilt(tags, job);
    hide Accepted, Built, Whole;
    var m := Retagged(tags, job).1.manifest;
    assert m.images == p.already + p.tag;
    if p.tag != [] {
      assert p.tag[0] in m.images;
    }
  }

  /**
   An image built and not yet released: a dry run exits 0 with an accepted manifest, and its release tag is not
   there.
   */
  lemma DryRunTagsNothing(svc: string, sha: string, version: string, digest: string)
    requires IsDigest(digest) && sha != version
    ensures var tags := map[Tag(svc, sha) := digest];
      var job := Job([svc], sha, version, true, _ => true, _ => true, _ => Took, None);
      var m := Manifest(version, sha, [Pin(svc, digest)], [], [], [], 1);
      Retagged(tags, job) == (tags, Exit(0, m)) && Accepted(m, [svc]) && !Stands(Pin(svc, digest), tags, version)
  {
    var tags := map[Tag(svc, sha) := digest];
    var job := Job([svc], sha, version, true, _ => true, _ => true, _ => Took, None);
    assert VerdictOf(tags, job, svc) == ToTag(digest);
    assert PlanOf(tags, job, 1) == Placed(PlanOf(tags, job, 0), svc, ToTag(digest))
      == Plan([Pin(svc, digest)], [], [], [], []);
    assert Written(tags, job, [Pin(svc, digest)], [], 0) == Writing(tags, [], [], true);
    assert Written(tags, job, [Pin(svc, digest)], [], 1) == Writing(tags, [Pin(svc, digest)], [], true);
    DryRunExactly(tags, job);
    hide IsDigest;
  }

  // ---- a release that was cut short can be finished

  predicate SameRelease(a: Job, b: Job) {
    a.services == b.services && a.sha == b.sha && a.version == b.version
  }

  /** Every image is there, and a release tag that is there is at it. */
  predicate Releasable(tags: Tags, job: Job) {
    forall svc :: svc in job.services ==>
      && Tag(svc, job.sha) in tags && IsDigest(tags[Tag(svc, job.sha)])
      && (Tag(svc, job.version) in tags ==> tags[Tag(svc, job.version)] == tags[Tag(svc, job.sha)])
  }

  /** With every tag readable, a run is refused exactly when the release is not to be had. */
  lemma ReleasableExactly(tags: Tags, job: Job)
    requires forall svc :: svc in job.services ==> job.readsSource(svc) && job.readsRelease(svc)
    ensures Refusal(Whole(tags, job)).None? <==> Releasable(tags, job)
  {
    RefusedExactly(tags, job);
    hide IsDigest, Whole;
    forall svc | svc in job.services
      ensures (VerdictOf(tags, job, svc).ToTag? || VerdictOf(tags, job, svc).Already?) <==>
        && Tag(svc, job.sha) in tags && IsDigest(tags[Tag(svc, job.sha)])
        && (Tag(svc, job.version) in tags ==> tags[Tag(svc, job.version)] == tags[Tag(svc, job.sha)])
    {
    }
  }

  /** A tag that was not there before was made for a pin of the list. */
  lemma {:induction false} WritesOnly(tags: Tags, job: Job, todo: seq<Pin>, already: seq<Pin>, n: nat, t: Tag)
    requires n <= |todo| && t !in tags && t in Written(tags, job, todo, already, n).tags
    ensures Pin(t.service, Written(tags, job, todo, already, n).tags[t]) in todo && t.name == job.version
  {
    if n > 0 {
      if t in Written(tags, job, todo, already, n - 1).tags {
        WritesOnly(tags, job, todo, already, n - 1, t);
      }
    }
  }

  lemma RunKeepsReleasable(tags: Tags, job: Job, run: Job)
    requires Releasable(tags, job) && SameRelease(job, run)
    ensures Releasable(Retagged(tags, run).0, job)
  {
    var after, p := Retagged(tags, run).0, Whole(tags, run);
    RunKeepsTags(tags, run);
    PlanPinsBuilt(tags, run);
    forall svc | svc in job.services && Tag(svc, job.version) in after && Tag(svc, job.version) !in tags
      ensures after[Tag(svc, job.version)] == tags[Tag(svc, job.sha)]
    {
      WritesOnly(tags, run, p.tag, p.already, |p.tag|, Tag(svc, job.version));
      assert Built(Pin(svc, after[Tag(svc, job.version)]), tags, run);
    }
    hide Retagged, Whole, IsDigest;
  }

  lemma {:induction false} AllTaken(tags: Tags, job: Job, todo: seq<Pin>, already: seq<Pin>, n: nat)
    requires n <= |todo| && job.dies.None? && forall i :: 0 <= i < |todo| ==> job.creates(todo[i].service).Took?
    ensures var w := Written(tags, job, todo, already, n); w.alive && w.failed == []
  {
    if n > 0 {
      AllTaken(tags, job, todo, already, n - 1);
    }
  }

  lemma {:induction false} TriesKeepReleasable(tags: Tags, job: Job, tries: seq<Event>)
    requires Releasable(tags, job) && forall e :: e in tries ==> e.Ran? && SameRelease(job, e.job)
    ensures Releasable(AfterAll(tags, tries), job)
    decreases |tries|
  {
    hide Releasable, Retagged;
    if tries != [] {
      RunKeepsReleasable(tags, job, tries[0].job);
      TriesKeepReleasable(Step(tags, tries[0]), job, tries[1..]);
    }
  }

  /** Whatever tries of one release came before, cut short anywhere, a run that goes through exits 0. */
  lemma TriesCanBeFinished(tags: Tags, tries: seq<Event>, job: Job)
    requires Releasable(tags, job) && forall e :: e in tries ==> e.Ran? && SameRelease(job, e.job)
    requires job.services != [] && job.dies.None? && forall svc :: job.creates(svc).Took?
    requires forall svc :: svc in job.services ==> job.readsSource(svc) && job.readsRelease(svc)
    ensures var result := Retagged(AfterAll(tags, tries), job).1; result.Exit? && result.code == 0
  {
    hide Releasable;
    var now := AfterAll(tags, tries);
    TriesKeepReleasable(tags, job, tries);
    ReleasableExactly(now, job);
    var p := Whole(now, job);
    AllTaken(now, job, p.tag, p.already, |p.tag|);
  }
}
