/** One cleanup run: the cutoff taken once, then every target package listed, sorted,
    classified and walked in turn. */
module Cleanup {
  import opened Versions
  import opened Ordering
  import opened Cutoff
  import opened Retention
  import opened Executor

  /** The answer of the registry's version listing for one package. */
  datatype Listing = ListingFailed | Listed(raws: seq<RawVersion>)

  datatype SkipReason = ListingError | NoVersions

  /** What happened to one package. */
  datatype PackageResult =
    | Skipped(pkg: string, reason: SkipReason)
    | Processed(pkg: string, total: nat, events: seq<Event>)

  /** A run either fails as a whole (the package discovery threw) or finishes with one
      result per target package. */
  datatype RunOutcome = Aborted | Finished(results: seq<PackageResult>)

  /** The packages a run processes: the configured one, or else those the discovery found
      (absent when the discovery request threw). */
  function Targets(packageName: string, discovered: Option<seq<string>>): (targets: Option<seq<string>>)
    ensures packageName != "" ==> targets == Some([packageName])
    ensures packageName == "" ==> targets == discovered
  {
    if packageName == "" then discovered else Some([packageName])
  }

  /** The newest-first, classified walk the source performs for a non-empty listing. */
  function PlanOf(raws: seq<RawVersion>, keepLatest: nat, cutoff: int): seq<Classified>
  {
    Classify(SortNewestFirst(Ingest(raws)), keepLatest, cutoff)
  }

  /** What one package's turn of the loop yields: a skip when the listing failed or is
      empty, and otherwise one report line per listed version. */
  function PackageResultOf(pkg: string, listing: Listing, keepLatest: nat, cutoff: int, deleteOk: Deleter): (r: PackageResult)
    ensures r.pkg == pkg
    ensures r.Skipped? <==> listing.ListingFailed? || |listing.raws| == 0
    ensures r.Skipped? ==> (r.reason == ListingError <==> listing.ListingFailed?)
    ensures r.Processed? ==> r.total == |listing.raws| && |r.events| == |listing.raws|
  {
    match listing
    case ListingFailed => Skipped(pkg, ListingError)
    case Listed(raws) =>
      if |raws| == 0 then Skipped(pkg, NoVersions)
      else Processed(pkg, |raws|, Report(pkg, PlanOf(raws, keepLatest, cutoff), deleteOk))
  }

  /** The version ids one package's turn sends DELETE requests for, in order: none for a
      skipped package, and at most one per listed version otherwise. */
  function PackageAttempts(listing: Listing, keepLatest: nat, cutoff: int): (ids: seq<int>)
    ensures listing.ListingFailed? ==> ids == []
    ensures listing.Listed? ==> |ids| <= |listing.raws|
  {
    match listing
    case ListingFailed => []
    case Listed(raws) => if |raws| == 0 then [] else Ids(DeletedVersions(PlanOf(raws, keepLatest, cutoff)))
  }

  /** Every DELETE request of the run, package after package; each names a target package. */
  function RunRequests(pkgs: seq<string>, listVersions: string -> Listing, keepLatest: nat, cutoff: int): (requests: seq<(string, int)>)
    ensures forall q :: q in requests ==> q.0 in pkgs
  {
    if pkgs == [] then []
    else
      var pkg := pkgs[|pkgs| - 1];
      var init := pkgs[..|pkgs| - 1];
      assert forall p :: p in init ==> p in pkgs;
      RunRequests(init, listVersions, keepLatest, cutoff)
        + Tagged(pkg, PackageAttempts(listVersions(pkg), keepLatest, cutoff))
  }

  /** The result of every package of the run, in order. */
  function RunResults(pkgs: seq<string>, listVersions: string -> Listing, keepLatest: nat, cutoff: int, deleteOk: Deleter): (results: seq<PackageResult>)
    ensures |results| == |pkgs|
    ensures forall k :: 0 <= k < |pkgs| ==> results[k].pkg == pkgs[k]
  {
    seq(|pkgs|, k requires 0 <= k < |pkgs| => PackageResultOf(pkgs[k], listVersions(pkgs[k]), keepLatest, cutoff, deleteOk))
  }

  lemma RunResultsStep(pkgs: seq<string>, j: nat, listVersions: string -> Listing, keepLatest: nat, cutoff: int, deleteOk: Deleter)
    requires j < |pkgs|
    ensures RunResults(pkgs[..j + 1], listVersions, keepLatest, cutoff, deleteOk)
      == RunResults(pkgs[..j], listVersions, keepLatest, cutoff, deleteOk)
         + [PackageResultOf(pkgs[j], listVersions(pkgs[j]), keepLatest, cutoff, deleteOk)]
  {
  }

  lemma RunRequestsStep(pkgs: seq<string>, j: nat, listVersions: string -> Listing, keepLatest: nat, cutoff: int)
    requires j < |pkgs|
    ensures RunRequests(pkgs[..j + 1], listVersions, keepLatest, cutoff)
      == RunRequests(pkgs[..j], listVersions, keepLatest, cutoff)
         + Tagged(pkgs[j], PackageAttempts(listVersions(pkgs[j]), keepLatest, cutoff))
  {
    assert pkgs[..j + 1][..j] == pkgs[..j];
  }

  /** One turn of the package loop: a failed or empty listing skips the package (the
      source's `continue`) and sends nothing; otherwise the versions are ingested, sorted
      and walked, and the registry is sent the package's DELETEs and no others. */
  method ProcessPackage(pkg: string, listing: Listing, keepLatest: nat, cutoff: int, registry: Registry)
    returns (result: PackageResult)
    modifies registry
    ensures result == PackageResultOf(pkg, listing, keepLatest, cutoff, registry.outcome)
    ensures registry.sent == old(registry.sent) + Tagged(pkg, PackageAttempts(listing, keepLatest, cutoff))
  {
    if listing.ListingFailed? {
      assert Tagged(pkg, []) == [];
      return Skipped(pkg, ListingError);
    }
    var versions := Ingest(listing.raws);
    if |versions| == 0 {
      assert Tagged(pkg, []) == [];
      return Skipped(pkg, NoVersions);
    }
    var sorted := SortNewestFirst(versions);
    var events := Execute(pkg, sorted, keepLatest, cutoff, registry);
    result := Processed(pkg, |sorted|, events);
  }

  /** The loop over the target packages, in order; each package's turn is independent of
      how the others went, and the registry is sent exactly their DELETEs, package after
      package. */
  method ProcessAll(packages: seq<string>, listVersions: string -> Listing, keepLatest: nat, cutoff: int, registry: Registry)
    returns (results: seq<PackageResult>)
    modifies registry
    ensures results == RunResults(packages, listVersions, keepLatest, cutoff, registry.outcome)
    ensures registry.sent == old(registry.sent) + RunRequests(packages, listVersions, keepLatest, cutoff)
  {
    ghost var before := registry.sent;
    var deleteOk := registry.outcome;
    results := [];
    for j := 0 to |packages|
      invariant results == RunResults(packages[..j], listVersions, keepLatest, cutoff, deleteOk)
      invariant registry.sent == before + RunRequests(packages[..j], listVersions, keepLatest, cutoff)
    {
      var pkg := packages[j];
      ghost var sentBefore := registry.sent;
      var result := ProcessPackage(pkg, listVersions(pkg), keepLatest, cutoff, registry);
      RunResultsStep(packages, j, listVersions, keepLatest, cutoff, deleteOk);
      RequestsLoopStep(packages, j, listVersions, keepLatest, cutoff, before, sentBefore, registry.sent);
      results := results + [result];
    }
    assert packages[..|packages|] == packages;
  }

  /** One turn of the package loop extends the requests by that package's share. */
  lemma RequestsLoopStep(pkgs: seq<string>, j: nat, listVersions: string -> Listing, keepLatest: nat, cutoff: int,
                         before: seq<(string, int)>, sentBefore: seq<(string, int)>, sentAfter: seq<(string, int)>)
    requires j < |pkgs|
    requires sentBefore == before + RunRequests(pkgs[..j], listVersions, keepLatest, cutoff)
    requires sentAfter == sentBefore + Tagged(pkgs[j], PackageAttempts(listVersions(pkgs[j]), keepLatest, cutoff))
    ensures sentAfter == before + RunRequests(pkgs[..j + 1], listVersions, keepLatest, cutoff)
  {
    RunRequestsStep(pkgs, j, listVersions, keepLatest, cutoff);
    AppendAssociates(before, RunRequests(pkgs[..j], listVersions, keepLatest, cutoff),
      Tagged(pkgs[j], PackageAttempts(listVersions(pkgs[j]), keepLatest, cutoff)));
  }

  lemma AppendAssociates<T>(a: seq<T>, b: seq<T>, c: seq<T>)
    ensures (a + b) + c == a + (b + c)
  {
  }

  /** The whole run. The cutoff is computed once, before any package, and every package
      is judged against it; a package whose listing fails or is empty is skipped and the
      loop goes on; the run aborts, sending nothing, only when the package discovery
      itself fails. */
  method Run(packageName: string, discovered: Option<seq<string>>, listVersions: string -> Listing,
             registry: Registry, now: int, daysOld: nat, keepLatest: nat)
    returns (outcome: RunOutcome)
    modifies registry
    ensures outcome.Aborted? <==> Targets(packageName, discovered).None?
    ensures outcome.Aborted? ==> registry.sent == old(registry.sent)
    ensures outcome.Finished? ==>
      var pkgs := Targets(packageName, discovered).value;
      |outcome.results| == |pkgs|
      && (forall j :: 0 <= j < |pkgs| ==>
            outcome.results[j] == PackageResultOf(pkgs[j], listVersions(pkgs[j]), keepLatest, CutoffDate(now, daysOld), registry.outcome))
      && registry.sent == old(registry.sent) + RunRequests(pkgs, listVersions, keepLatest, CutoffDate(now, daysOld))
  {
    var cutoff := CutoffDate(now, daysOld);
    var packages: seq<string>;
    if packageName == "" {
      if discovered.None? {
        return Aborted;
      }
      packages := discovered.value;
    } else {
      packages := [packageName];
    }
    if |packages| == 0 {
      return Finished([]);
    }
    var results := ProcessAll(packages, listVersions, keepLatest, cutoff, registry);
    outcome := Finished(results);
  }

  /** A package whose listing fails or is empty is skipped: no DELETE is sent for it. */
  lemma SkippedPackageDeletesNothing(pkg: string, listing: Listing, keepLatest: nat, cutoff: int, deleteOk: Deleter)
    requires listing.ListingFailed? || |listing.raws| == 0
    ensures PackageResultOf(pkg, listing, keepLatest, cutoff, deleteOk).Skipped?
    ensures PackageAttempts(listing, keepLatest, cutoff) == []
  {
  }

  /** A processed package reports every listed version once, `min(keepLatest, n)` of
      them as keep-window keeps. */
  lemma PackageReport(pkg: string, raws: seq<RawVersion>, keepLatest: nat, cutoff: int, deleteOk: Deleter)
    requires |raws| > 0
    ensures var r := PackageResultOf(pkg, Listed(raws), keepLatest, cutoff, deleteOk);
      r.Processed? && r.total == |raws| && |r.events| == |raws|
      && TallyOf(r.events).keptInWindow == Min(keepLatest, |raws|)
  {
    var versions := Ingest(raws);
    var sorted := SortNewestFirst(versions);
    SortPermutes(versions);
    assert |multiset(sorted)| == |multiset(versions)|;
    ReportSummary(pkg, sorted, keepLatest, cutoff, deleteOk);
  }

  /** The DELETEs of a processed package target the oldest tail of its sorted versions,
      no more than `n - min(keepLatest, n)` of them, each a listed version created
      strictly before the cutoff. */
  lemma PackageDeletions(raws: seq<RawVersion>, keepLatest: nat, cutoff: int)
    requires |raws| > 0
    ensures var sorted := SortNewestFirst(Ingest(raws));
      var deleted := DeletedVersions(PlanOf(raws, keepLatest, cutoff));
      PackageAttempts(Listed(raws), keepLatest, cutoff) == Ids(deleted)
      && deleted == sorted[|sorted| - |deleted|..]
      && |deleted| <= |raws| - Min(keepLatest, |raws|)
      && (forall v :: v in deleted ==> v.createdAt < cutoff && v in Ingest(raws))
  {
    SortedDeletions(Ingest(raws), keepLatest, cutoff);
    DeletedAreListed(Ingest(raws), keepLatest, cutoff);
  }

  lemma SortedDeletions(versions: seq<Version>, keepLatest: nat, cutoff: int)
    ensures var sorted := SortNewestFirst(versions);
      var deleted := DeletedVersions(Classify(sorted, keepLatest, cutoff));
      deleted == sorted[|sorted| - |deleted|..]
      && |deleted| <= |versions| - Min(keepLatest, |versions|)
  {
    var sorted := SortNewestFirst(versions);
    SortOrders(versions);
    DeletionsAreOldestTail(sorted, keepLatest, cutoff);
  }

  lemma DeletedAreListed(versions: seq<Version>, keepLatest: nat, cutoff: int)
    ensures forall v :: v in DeletedVersions(Classify(SortNewestFirst(versions), keepLatest, cutoff)) ==>
      v.createdAt < cutoff && v in versions
  {
    var sorted := SortNewestFirst(versions);
    SortPermutes(versions);
    forall v | v in DeletedVersions(Classify(sorted, keepLatest, cutoff)) ensures v.createdAt < cutoff && v in versions {
      DeletedAreOldAndOutsideWindow(sorted, keepLatest, cutoff, v);
      assert v in multiset(sorted);
    }
  }
}
