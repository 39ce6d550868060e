/**
 Release tags: `plan`, `refusal`, the write loop of `main`, `mismatches` and `verify`, over a registry
 of tags. A read may fail, a create may fail with or without effect, and a run may die between creates.
 */
module Retag {
  import opened Options
  import opened Texts

  datatype Tag = Tag(service: string, name: string)

  type Tags = map<Tag, string>

  /** A service and a digest, as a manifest pins them. */
  datatype Pin = Pin(service: string, digest: string)

  /** `sha256:[0-9a-f]{64}`. */
  predicate IsDigest(s: string) {
    |s| == 71 && s[..7] == "sha256:" && forall i :: 7 <= i < |s| ==> Hex(s[i])
  }

  // ---- reading

  /** `digest_of`: None for an absent tag, and for one that cannot be read. */
  function Resolve(tags: Tags, t: Tag, readable: bool): Option<string> {
    if readable && t in tags && IsDigest(tags[t]) then Some(tags[t]) else None
  }

  datatype TagState = Absent | Present(digest: string) | Unreadable

  /** `tag_state`. */
  function StateOf(tags: Tags, t: Tag, readable: bool): TagState {
    if !readable then Unreadable
    else if t !in tags then Absent
    else if IsDigest(tags[t]) then Present(tags[t])
    else Unreadable
  }

  // ---- planning

  datatype Fate = Took | Failed | FailedButTook

  /** One run: what it is asked, which tags it can read, how each create ends, and when it dies. */
  datatype Job = Job(
    services: seq<string>, sha: string, version: string, dryRun: bool,
    readsSource: string -> bool, readsRelease: string -> bool, creates: string -> Fate, dies: Option<nat>)

  datatype Verdict = Missing | ToTag(digest: string) | Already(digest: string)
    | Conflict(tagged: string, built: string) | CannotTell

  function VerdictOf(tags: Tags, job: Job, svc: string): Verdict {
    var built := Resolve(tags, Tag(svc, job.sha), job.readsSource(svc));
    if built.None? then Missing
    else
      match StateOf(tags, Tag(svc, job.version), job.readsRelease(svc))
      case Absent => ToTag(built.value)
      case Present(have) => if have == built.value then Already(have) else Conflict(have, built.value)
      case Unreadable => CannotTell
  }

  datatype Plan = Plan(
    tag: seq<Pin>, already: seq<Pin>, missing: seq<string>, conflicts: seq<string>, unreadable: seq<string>)

  function Placed(p: Plan, svc: string, v: Verdict): Plan {
    match v
    case Missing => p.(missing := p.missing + [svc])
    case ToTag(d) => p.(tag := p.tag + [Pin(svc, d)])
    case Already(d) => p.(already := p.already + [Pin(svc, d)])
    case Conflict(_, _) => p.(conflicts := p.conflicts + [svc])
    case CannotTell => p.(unreadable := p.unreadable + [svc])
  }

  /** `plan`, over the first `n` services. */
  function PlanOf(tags: Tags, job: Job, n: nat): Plan
    requires n <= |job.services|
  {
    if n == 0 then Plan([], [], [], [], [])
    else Placed(PlanOf(tags, job, n - 1), job.services[n - 1], VerdictOf(tags, job, job.services[n - 1]))
  }

  function Whole(tags: Tags, job: Job): Plan {
    PlanOf(tags, job, |job.services|)
  }

  /** `refusal`: the code a plan is refused with. */
  function Refusal(p: Plan): Option<int> {
    if p.conflicts != [] then Some(4)
    else if p.unreadable != [] then Some(1)
    else if p.missing != [] then Some(3)
    else None
  }

  // ---- writing

  datatype Writing = Writing(tags: Tags, rows: seq<Pin>, failed: seq<string>, alive: bool)

  /** The write loop over the first `n` services to tag. */
  function Written(tags: Tags, job: Job, todo: seq<Pin>, already: seq<Pin>, n: nat): Writing
    requires n <= |todo|
  {
    if n == 0 then Writing(tags, already, [], true)
    else
      var w := Written(tags, job, todo, already, n - 1);
      var pin := todo[n - 1];
      if !w.alive then w
      else if job.dryRun then w.(rows := w.rows + [pin])
      else if job.dies == Some(n - 1) then w.(alive := false)
      else
        var fate := job.creates(pin.service);
        var made := if fate.Failed? then w.tags else w.tags[Tag(pin.service, job.version) := pin.digest];
        if fate.Took? then w.(tags := made, rows := w.rows + [pin])
        else w.(tags := made, failed := w.failed + [pin.service])
  }

  datatype Manifest = Manifest(
    version: string, commit: string, images: seq<Pin>, missing: seq<string>, failed: seq<string>,
    conflicts: seq<string>, expected: nat)

  datatype Result = Died | NoServices | Exit(code: int, manifest: Manifest)

  function ManifestOf(job: Job, p: Plan, rows: seq<Pin>, failed: seq<string>): Manifest {
    Manifest(job.version, job.sha, rows, p.missing, failed + p.unreadable, p.conflicts, |job.services|)
  }

  /** What a run leaves in the registry, and what it reports. */
  function Retagged(tags: Tags, job: Job): (Tags, Result) {
    if job.services == [] then (tags, NoServices)
    else
      var p := Whole(tags, job);
      var rc := Refusal(p);
      if rc.Some? then (tags, Exit(rc.value, ManifestOf(job, p, p.already, [])))
      else
        var w := Written(tags, job, p.tag, p.already, |p.tag|);
        if !w.alive then (w.tags, Died)
        else (w.tags, Exit(if w.failed == [] then 0 else 1, ManifestOf(job, p, w.rows, w.failed)))
  }

  /** The registry's tags. */
  class Registry {
    var tags: Tags

    constructor ()
      ensures tags == map[]
    {
      tags := map[];
    }

    method Create(t: Tag, digest: string, fate: Fate) returns (ok: bool)
      modifies this
      ensures ok == fate.Took?
      ensures tags == if fate.Failed? then old(tags) else old(tags)[t := digest]
    {
      if !fate.Failed? {
        tags := tags[t := digest];
      }
      ok := fate.Took?;
    }

    /** Every service is decided before anything is written. */
    method MakePlan(job: Job) returns (p: Plan)
      ensures p == Whole(tags, job)
    {
      p := Plan([], [], [], [], []);
      for i := 0 to |job.services|
        invariant p == PlanOf(tags, job, i)
      {
        var svc := job.services[i];
        var built := Resolve(tags, Tag(svc, job.sha), job.readsSource(svc));
        if built.None? {
          p := p.(missing := p.missing + [svc]);
        } else {
          var state := StateOf(tags, Tag(svc, job.version), job.readsRelease(svc));
          if state.Absent? {
            p := p.(tag := p.tag + [Pin(svc, built.value)]);
          } else if state == Present(built.value) {
            p := p.(already := p.already + [Pin(svc, built.value)]);
          } else if state.Present? {
            p := p.(conflicts := p.conflicts + [svc]);
          } else {
            p := p.(unreadable := p.unreadable + [svc]);
          }
        }
      }
    }

    /** `main`: plan, refuse as a whole, then tag one service at a time. */
    method Retag(job: Job) returns (result: Result)
      modifies this
      ensures (tags, result) == Retagged(old(tags), job)
    {
      if job.services == [] {
        return NoServices;
      }
      var p := MakePlan(job);
      var rc := Refusal(p);
      var rows, failed := p.already, [];
      if rc.None? {
        for i := 0 to |p.tag|
          invariant Writing(tags, rows, failed, true) == Written(old(tags), job, p.tag, p.already, i)
        {
          var pin := p.tag[i];
          if job.dryRun {
            rows := rows + [pin];
          } else {
            if job.dies == Some(i) {
              DeadStays(old(tags), job, p.tag, p.already, i + 1, |p.tag|);
              return Died;
            }
            var ok := Create(Tag(pin.service, job.version), pin.digest, job.creates(pin.service));
            if ok {
              rows := rows + [pin];
            } else {
              failed := failed + [pin.service];
            }
          }
        }
      }
      var manifest := ManifestOf(job, p, rows, failed);
      if rc.Some? {
        return Exit(rc.value, manifest);
      }
      return Exit(if failed == [] then 0 else 1, manifest);
    }
  }

  lemma {:induction false} DeadStays(tags: Tags, job: Job, todo: seq<Pin>, already: seq<Pin>, n: nat, m: nat)
    requires n <= m <= |todo| && !Written(tags, job, todo, already, n).alive
    ensures Written(tags, job, todo, already, m) == Written(tags, job, todo, already, n)
    decreases m
  {
    if n < m {
      DeadStays(tags, job, todo, already, n, m - 1);
    }
  }
}
