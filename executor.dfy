/** The deletion walk over one package: one keep line or one deletion attempt per rank. */
module Executor {
  import opened Versions
  import opened Retention

  /** What the walk reports for one version. */
  datatype Event =
    | KeptInWindow(version: Version)
    | KeptNewerThanCutoff(version: Version)
    | Removed(version: Version)
    | RemovalFailed(version: Version)

  /** The registry's DELETE for a (package, version id): true when the request
      succeeded, false when it threw. */
  type Deleter = (string, int) -> bool

  /** The registry's management API as the walk sees it: every DELETE it is sent is
      recorded in `sent`, and `outcome` says how each one ends. */
  class Registry {
    ghost var sent: seq<(string, int)>
    const outcome: Deleter

    constructor (outcome: Deleter)
      ensures this.outcome == outcome && sent == []
    {
      this.outcome := outcome;
      sent := [];
    }

    /** DELETE of version `id` of package `pkg`; `ok` is false when the request threw. */
    method Delete(pkg: string, id: int) returns (ok: bool)
      modifies this
      ensures sent == old(sent) + [(pkg, id)]
      ensures ok == outcome(pkg, id)
    {
      sent := sent + [(pkg, id)];
      ok := outcome(pkg, id);
    }
  }

  /** The DELETE requests for `ids` of package `pkg`, in order. */
  function Tagged(pkg: string, ids: seq<int>): seq<(string, int)>
  {
    seq(|ids|, i requires 0 <= i < |ids| => (pkg, ids[i]))
  }

  /** The report line for one classified version: its keep reason, or the outcome of
      its DELETE. */
  function EventOf(pkg: string, entry: Classified, deleteOk: Deleter): (e: Event)
    ensures e.version == entry.version
    ensures e.KeptInWindow? <==> entry.decision == Keep(WithinKeepWindow)
    ensures e.KeptNewerThanCutoff? <==> entry.decision == Keep(NewerThanCutoff)
    ensures e.Removed? <==> entry.decision.Delete? && deleteOk(pkg, entry.version.id)
    ensures e.RemovalFailed? <==> entry.decision.Delete? && !deleteOk(pkg, entry.version.id)
  {
    match entry.decision
    case Keep(WithinKeepWindow) => KeptInWindow(entry.version)
    case Keep(NewerThanCutoff) => KeptNewerThanCutoff(entry.version)
    case Delete => if deleteOk(pkg, entry.version.id) then Removed(entry.version) else RemovalFailed(entry.version)
  }

  /** The report of a whole plan, one line per version in rank order; only deleted
      versions get a removal line. */
  function Report(pkg: string, plan: seq<Classified>, deleteOk: Deleter): (events: seq<Event>)
    ensures |events| == |plan|
    ensures forall i :: 0 <= i < |plan| ==> events[i].version == plan[i].version
    ensures forall i :: 0 <= i < |plan| ==>
      ((events[i].Removed? || events[i].RemovalFailed?) <==> plan[i].decision.Delete?)
  {
    seq(|plan|, i requires 0 <= i < |plan| => EventOf(pkg, plan[i], deleteOk))
  }

  /** The walk over a newest-first list: each version at rank `keepLatest` or later that
      is older than the cutoff is sent exactly one DELETE, in rank order, whether or not
      the earlier ones succeeded; no other version is sent one, and every other version
      gets its keep reason. */
  method Execute(pkg: string, sorted: seq<Version>, keepLatest: nat, cutoff: int, registry: Registry)
    returns (events: seq<Event>)
    modifies registry
    ensures events == Report(pkg, Classify(sorted, keepLatest, cutoff), registry.outcome)
    ensures registry.sent == old(registry.sent) + Tagged(pkg, Ids(DeletedVersions(Classify(sorted, keepLatest, cutoff))))
  {
    ghost var plan := Classify(sorted, keepLatest, cutoff);
    events := [];
    var i := 0;
    while i < |sorted|
      invariant 0 <= i <= |sorted|
      invariant events == Report(pkg, plan[..i], registry.outcome)
      invariant registry.sent == old(registry.sent) + Tagged(pkg, Ids(DeletedVersions(plan[..i])))
    {
      var version := sorted[i];
      assert plan[i] == Classified(version, Decide(i, version.createdAt, keepLatest, cutoff));
      DeletedStep(pkg, plan, i);
      ReportSnoc(pkg, plan[..i + 1], registry.outcome);
      if i >= keepLatest && version.createdAt < cutoff {
        var ok := registry.Delete(pkg, version.id);
        if ok {
          events := events + [Removed(version)];
        } else {
          events := events + [RemovalFailed(version)];
        }
      } else if i < keepLatest {
        events := events + [KeptInWindow(version)];
      } else {
        events := events + [KeptNewerThanCutoff(version)];
      }
      i := i + 1;
    }
    assert plan[..i] == plan;
  }

  lemma DeletedStep(pkg: string, plan: seq<Classified>, i: nat)
    requires i < |plan|
    ensures plan[..i + 1][..i] == plan[..i]
    ensures Tagged(pkg, Ids(DeletedVersions(plan[..i + 1])))
      == Tagged(pkg, Ids(DeletedVersions(plan[..i])))
         + (if plan[i].decision.Delete? then [(pkg, plan[i].version.id)] else [])
  {
    assert plan[..i + 1][..i] == plan[..i];
  }

  /** How many lines of each kind a report holds. */
  datatype Tally = Tally(keptInWindow: nat, keptNewer: nat, removed: nat, failed: nat)

  function TallyOf(events: seq<Event>): Tally
  {
    if events == [] then Tally(0, 0, 0, 0)
    else
      var t := TallyOf(events[..|events| - 1]);
      match events[|events| - 1]
      case KeptInWindow(_) => t.(keptInWindow := t.keptInWindow + 1)
      case KeptNewerThanCutoff(_) => t.(keptNewer := t.keptNewer + 1)
      case Removed(_) => t.(removed := t.removed + 1)
      case RemovalFailed(_) => t.(failed := t.failed + 1)
  }

  lemma ReportSnoc(pkg: string, plan: seq<Classified>, deleteOk: Deleter)
    requires plan != []
    ensures Report(pkg, plan, deleteOk)
      == Report(pkg, plan[..|plan| - 1], deleteOk) + [EventOf(pkg, plan[|plan| - 1], deleteOk)]
  {
  }

  lemma {:induction false} TallyOfReport(pkg: string, plan: seq<Classified>, deleteOk: Deleter)
    ensures var t := TallyOf(Report(pkg, plan, deleteOk));
      t.keptInWindow == WindowKept(plan)
      && t.keptInWindow + t.keptNewer == |KeptVersions(plan)|
      && t.removed + t.failed == |DeletedVersions(plan)|
  {
    if plan != [] {
      var init, last := plan[..|plan| - 1], plan[|plan| - 1];
      TallyOfReport(pkg, init, deleteOk);
      ReportSnoc(pkg, plan, deleteOk);
      var r := Report(pkg, plan, deleteOk);
      assert r[..|r| - 1] == Report(pkg, init, deleteOk);
      assert r[|r| - 1] == EventOf(pkg, last, deleteOk);
    }
  }

  /** The report of one package adds up: `min(keepLatest, n)` keep-window lines, one
      success-or-failure line per DELETE attempted, and one line per version in all. */
  lemma ReportSummary(pkg: string, sorted: seq<Version>, keepLatest: nat, cutoff: int, deleteOk: Deleter)
    ensures var plan := Classify(sorted, keepLatest, cutoff);
      var t := TallyOf(Report(pkg, plan, deleteOk));
      t.keptInWindow == Min(keepLatest, |sorted|)
      && t.removed + t.failed == |Ids(DeletedVersions(plan))|
      && t.keptInWindow + t.keptNewer + t.removed + t.failed == |sorted|
  {
    var plan := Classify(sorted, keepLatest, cutoff);
    TallyOfReport(pkg, plan, deleteOk);
    KeepWindowSize(sorted, keepLatest, cutoff);
    Partition(sorted, keepLatest, cutoff);
  }

  /** A failed DELETE affects only its own line: two deleters that agree on a version's id
      give that version the same line. (The DELETEs `Execute` sends never depend on the
      deleter at all.) */
  lemma FailureIsolation(pkg: string, plan: seq<Classified>, d1: Deleter, d2: Deleter, i: nat)
    requires i < |plan|
    requires d1(pkg, plan[i].version.id) == d2(pkg, plan[i].version.id)
    ensures Report(pkg, plan, d1)[i] == Report(pkg, plan, d2)[i]
  {
  }
}
