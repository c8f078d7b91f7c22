/** The retention decision: the rank-and-threshold rule applied along a newest-first list. */
module Retention {
  import opened Versions
  import opened Ordering

  /** Why a version is kept: it is among the `keepLatest` newest, or it is not older
      than the cutoff. */
  datatype KeepReason = WithinKeepWindow | NewerThanCutoff

  datatype Decision = Keep(reason: KeepReason) | Delete

  /** One version of the walk together with the decision taken for it. */
  datatype Classified = Classified(version: Version, decision: Decision)

  /** The decision for the version at zero-based `rank` created at `createdAt`. */
  function Decide(rank: nat, createdAt: int, keepLatest: nat, cutoff: int): Decision
  {
    if rank >= keepLatest && createdAt < cutoff then Delete
    else if rank < keepLatest then Keep(WithinKeepWindow)
    else Keep(NewerThanCutoff)
  }

  /** The classified walk over `sorted`, rank by rank. Exactly the versions at rank
      `keepLatest` or later that were created strictly before the cutoff are deleted;
      of the kept ones, those of rank below `keepLatest` carry the keep-window reason and
      all others the newer-than-cutoff reason. */
  function Classify(sorted: seq<Version>, keepLatest: nat, cutoff: int): (plan: seq<Classified>)
    ensures |plan| == |sorted|
    ensures forall i :: 0 <= i < |plan| ==> plan[i].version == sorted[i]
    ensures forall i :: 0 <= i < |plan| ==>
      (plan[i].decision.Delete? <==> i >= keepLatest && sorted[i].createdAt < cutoff)
    ensures forall i :: 0 <= i < |plan| ==>
      (plan[i].decision == Keep(WithinKeepWindow) <==> i < keepLatest)
    ensures forall i :: 0 <= i < |plan| ==>
      (plan[i].decision == Keep(NewerThanCutoff) <==> keepLatest <= i && cutoff <= sorted[i].createdAt)
  {
    seq(|sorted|, i requires 0 <= i < |sorted| =>
      Classified(sorted[i], Decide(i, sorted[i].createdAt, keepLatest, cutoff)))
  }

  /** The versions of a plan, in plan order. */
  function PlanVersions(plan: seq<Classified>): seq<Version>
  {
    seq(|plan|, i requires 0 <= i < |plan| => plan[i].version)
  }

  /** The versions the plan deletes, in plan order. */
  function DeletedVersions(plan: seq<Classified>): (deleted: seq<Version>)
    ensures |deleted| <= |plan|
  {
    if plan == [] then []
    else
      var last := plan[|plan| - 1];
      DeletedVersions(plan[..|plan| - 1]) + (if last.decision.Delete? then [last.version] else [])
  }

  /** The versions the plan keeps, in plan order. */
  function KeptVersions(plan: seq<Classified>): (kept: seq<Version>)
    ensures |kept| <= |plan|
  {
    if plan == [] then []
    else
      var last := plan[|plan| - 1];
      KeptVersions(plan[..|plan| - 1]) + (if last.decision.Keep? then [last.version] else [])
  }

  /** How many entries of the plan are kept for being within the keep window. */
  function WindowKept(plan: seq<Classified>): nat
  {
    if plan == [] then 0
    else WindowKept(plan[..|plan| - 1]) + (if plan[|plan| - 1].decision == Keep(WithinKeepWindow) then 1 else 0)
  }

  function Min(a: nat, b: nat): nat { if a <= b then a else b }

  lemma {:induction false} PlanSplits(plan: seq<Classified>)
    ensures multiset(DeletedVersions(plan)) + multiset(KeptVersions(plan)) == multiset(PlanVersions(plan))
  {
    if plan != [] {
      var init := plan[..|plan| - 1];
      PlanSplits(init);
      assert PlanVersions(plan) == PlanVersions(init) + [plan[|plan| - 1].version];
    }
  }

  /** Every version is either deleted or kept, never both and never neither. */
  lemma Partition(sorted: seq<Version>, keepLatest: nat, cutoff: int)
    ensures var plan := Classify(sorted, keepLatest, cutoff);
      multiset(DeletedVersions(plan)) + multiset(KeptVersions(plan)) == multiset(sorted)
      && |DeletedVersions(plan)| + |KeptVersions(plan)| == |sorted|
  {
    var plan := Classify(sorted, keepLatest, cutoff);
    PlanSplits(plan);
    assert PlanVersions(plan) == sorted;
    assert |multiset(sorted)| == |sorted|;
  }

  lemma {:induction false} WindowKeptCounts(plan: seq<Classified>, keepLatest: nat)
    requires forall i :: 0 <= i < |plan| ==> (plan[i].decision == Keep(WithinKeepWindow) <==> i < keepLatest)
    ensures WindowKept(plan) == Min(keepLatest, |plan|)
  {
    if plan != [] {
      WindowKeptCounts(plan[..|plan| - 1], keepLatest);
    }
  }

  /** The number of versions kept for being within the keep window is
      `min(keepLatest, n)`. */
  lemma KeepWindowSize(sorted: seq<Version>, keepLatest: nat, cutoff: int)
    ensures WindowKept(Classify(sorted, keepLatest, cutoff)) == Min(keepLatest, |sorted|)
  {
    WindowKeptCounts(Classify(sorted, keepLatest, cutoff), keepLatest);
  }

  lemma {:induction false} DeletedComeFromPlan(plan: seq<Classified>, v: Version)
    requires v in DeletedVersions(plan)
    ensures exists i :: 0 <= i < |plan| && plan[i].version == v && plan[i].decision.Delete?
  {
    var init := plan[..|plan| - 1];
    if v in DeletedVersions(init) {
      DeletedComeFromPlan(init, v);
      var i :| 0 <= i < |init| && init[i].version == v && init[i].decision.Delete?;
      assert plan[i] == init[i];
    } else {
      assert plan[|plan| - 1].version == v && plan[|plan| - 1].decision.Delete?;
    }
  }

  /** Each deleted version was created strictly before the cutoff and sits at a rank
      outside the keep window. */
  lemma DeletedAreOldAndOutsideWindow(sorted: seq<Version>, keepLatest: nat, cutoff: int, v: Version)
    requires v in DeletedVersions(Classify(sorted, keepLatest, cutoff))
    ensures v.createdAt < cutoff
    ensures exists i :: keepLatest <= i < |sorted| && sorted[i] == v
  {
    DeletedComeFromPlan(Classify(sorted, keepLatest, cutoff), v);
  }

  lemma {:induction false} NoneDeleted(plan: seq<Classified>)
    requires forall i :: 0 <= i < |plan| ==> !plan[i].decision.Delete?
    ensures DeletedVersions(plan) == []
  {
    if plan != [] {
      NoneDeleted(plan[..|plan| - 1]);
    }
  }

  lemma {:induction false} UpwardClosedTail(plan: seq<Classified>)
    requires forall i, j :: 0 <= i <= j < |plan| && plan[i].decision.Delete? ==> plan[j].decision.Delete?
    ensures DeletedVersions(plan) == PlanVersions(plan)[|plan| - |DeletedVersions(plan)|..]
  {
    if plan != [] {
      var n := |plan|;
      var init := plan[..n - 1];
      if plan[n - 1].decision.Delete? {
        UpwardClosedTail(init);
        var d := |DeletedVersions(init)|;
        assert PlanVersions(init) == PlanVersions(plan)[..n - 1];
        assert PlanVersions(plan)[n - 1 - d..] == PlanVersions(plan)[n - 1 - d..n - 1] + [plan[n - 1].version];
      } else {
        NoneDeleted(plan);
      }
    }
  }

  lemma {:induction false} KeptPrefixBound(plan: seq<Classified>, m: nat)
    requires m <= |plan|
    requires forall i :: 0 <= i < m ==> !plan[i].decision.Delete?
    ensures |DeletedVersions(plan)| <= |plan| - m
  {
    if |plan| == m {
      NoneDeleted(plan);
    } else {
      KeptPrefixBound(plan[..|plan| - 1], m);
    }
  }

  /** On a newest-first list the deletions are exactly the oldest versions: a tail of the
      list that starts no earlier than the end of the keep window. */
  lemma DeletionsAreOldestTail(sorted: seq<Version>, keepLatest: nat, cutoff: int)
    requires NewestFirst(sorted)
    ensures var deleted := DeletedVersions(Classify(sorted, keepLatest, cutoff));
      deleted == sorted[|sorted| - |deleted|..]
      && |deleted| <= |sorted| - Min(keepLatest, |sorted|)
  {
    var plan := Classify(sorted, keepLatest, cutoff);
    UpwardClosedTail(plan);
    assert PlanVersions(plan) == sorted;
    KeptPrefixBound(plan, Min(keepLatest, |sorted|));
  }

  lemma {:induction false} FewerDeletions(fewer: seq<Classified>, more: seq<Classified>)
    requires |fewer| == |more|
    requires forall i :: 0 <= i < |fewer| && fewer[i].decision.Delete? ==> more[i].decision.Delete?
    ensures |DeletedVersions(fewer)| <= |DeletedVersions(more)|
  {
    if fewer != [] {
      FewerDeletions(fewer[..|fewer| - 1], more[..|more| - 1]);
    }
  }

  /** Widening the keep window never adds a deletion: every decision that changes becomes
      a keep-window keep (from a deletion or from a newer-than-cutoff keep). */
  lemma WiderWindowDeletesLess(sorted: seq<Version>, narrow: nat, wide: nat, cutoff: int)
    requires narrow <= wide
    ensures forall i :: 0 <= i < |sorted| ==>
      var before, after := Classify(sorted, narrow, cutoff)[i].decision, Classify(sorted, wide, cutoff)[i].decision;
      (after.Delete? ==> before.Delete?) && (before != after ==> after == Keep(WithinKeepWindow))
    ensures |DeletedVersions(Classify(sorted, wide, cutoff))| <= |DeletedVersions(Classify(sorted, narrow, cutoff))|
  {
    FewerDeletions(Classify(sorted, wide, cutoff), Classify(sorted, narrow, cutoff));
  }

  /** Moving the cutoff into the past only turns deletions into newer-than-cutoff keeps. */
  lemma EarlierCutoffDeletesLess(sorted: seq<Version>, keepLatest: nat, earlier: int, later: int)
    requires earlier <= later
    ensures forall i :: 0 <= i < |sorted| ==>
      var before, after := Classify(sorted, keepLatest, later)[i].decision, Classify(sorted, keepLatest, earlier)[i].decision;
      before != after ==> before == Delete && after == Keep(NewerThanCutoff)
    ensures |DeletedVersions(Classify(sorted, keepLatest, earlier))| <= |DeletedVersions(Classify(sorted, keepLatest, later))|
  {
    var before, after := Classify(sorted, keepLatest, later), Classify(sorted, keepLatest, earlier);
    forall i | 0 <= i < |sorted|
      ensures before[i].decision != after[i].decision ==>
        before[i].decision == Delete && after[i].decision == Keep(NewerThanCutoff)
    {
    }
    FewerDeletions(after, before);
  }
}
