/** Newest-first ordering of a package's versions, as the stable comparator sort
    `(a, b) => new Date(b.created_at) - new Date(a.created_at)` produces it. */
module Ordering {
  import opened Versions

  /** Creation instants never increase along `s`. */
  predicate NewestFirst(s: seq<Version>)
  {
    forall i, j :: 0 <= i < j < |s| ==> s[i].createdAt >= s[j].createdAt
  }

  /** The versions of `s` created at instant `t`, in their order in `s`. A sort that keeps
      these subsequences for every `t` leaves versions with equal timestamps in input order. */
  function Ties(s: seq<Version>, t: int): seq<Version>
  {
    if s == [] then []
    else (if s[0].createdAt == t then [s[0]] else []) + Ties(s[1..], t)
  }

  /** Places `x` after every version of `s` at least as new as `x`, scanning from the back. */
  function Insert(s: seq<Version>, x: Version): (r: seq<Version>)
    ensures |r| == |s| + 1
  {
    if s == [] then [x]
    else if s[|s| - 1].createdAt >= x.createdAt then s + [x]
    else Insert(s[..|s| - 1], x) + [s[|s| - 1]]
  }

  /** Stable sort by creation instant, newest first (insertion sort). It keeps every
      version: the result has the input's length. */
  function SortNewestFirst(s: seq<Version>): (r: seq<Version>)
    ensures |r| == |s|
  {
    if s == [] then []
    else Insert(SortNewestFirst(s[..|s| - 1]), s[|s| - 1])
  }

  lemma {:induction false} TiesAppend(a: seq<Version>, b: seq<Version>, t: int)
    ensures Ties(a + b, t) == Ties(a, t) + Ties(b, t)
  {
    if a == [] {
      assert a + b == b;
    } else {
      var ab := a + b;
      var lead := if a[0].createdAt == t then [a[0]] else [];
      assert ab[0] == a[0] && ab[1..] == a[1..] + b;
      TiesAppend(a[1..], b, t);
      calc {
        Ties(ab, t);
        lead + Ties(a[1..] + b, t);
        lead + (Ties(a[1..], t) + Ties(b, t));
        (lead + Ties(a[1..], t)) + Ties(b, t);
        Ties(a, t) + Ties(b, t);
      }
    }
  }

  lemma {:induction false} TiesMember(s: seq<Version>, t: int, v: Version)
    requires v in Ties(s, t)
    ensures v in s && v.createdAt == t
  {
    if s[0].createdAt == t && v == s[0] {
    } else {
      TiesMember(s[1..], t, v);
    }
  }

  lemma {:induction false} InsertPermutes(s: seq<Version>, x: Version)
    ensures multiset(Insert(s, x)) == multiset(s) + multiset{x}
  {
    if s != [] && s[|s| - 1].createdAt < x.createdAt {
      InsertPermutes(s[..|s| - 1], x);
      SnocMultiset(s);
    }
  }

  lemma {:induction false} InsertKeepsOrder(s: seq<Version>, x: Version)
    requires NewestFirst(s)
    ensures NewestFirst(Insert(s, x))
  {
    if s == [] {
    } else if s[|s| - 1].createdAt >= x.createdAt {
      var r := s + [x];
      forall i, j | 0 <= i < j < |r| ensures r[i].createdAt >= r[j].createdAt {
        if j == |s| {
          assert r[i].createdAt >= s[|s| - 1].createdAt;
        }
      }
    } else {
      var init, last := s[..|s| - 1], s[|s| - 1];
      InsertKeepsOrder(init, x);
      var head := Insert(init, x);
      forall k | 0 <= k < |init| ensures init[k].createdAt >= last.createdAt {
        assert s[k] == init[k];
      }
      InsertStaysAbove(init, x, last.createdAt);
      var r := head + [last];
      forall i, j | 0 <= i < j < |r| ensures r[i].createdAt >= r[j].createdAt {
        if j < |head| {
          assert r[i] == head[i] && r[j] == head[j];
        }
      }
    }
  }

  /** A lower bound on the creation instants of `s` and of `x` bounds those of `Insert(s, x)`. */
  lemma InsertStaysAbove(s: seq<Version>, x: Version, floor: int)
    requires forall k :: 0 <= k < |s| ==> s[k].createdAt >= floor
    requires x.createdAt >= floor
    ensures forall k :: 0 <= k < |Insert(s, x)| ==> Insert(s, x)[k].createdAt >= floor
  {
    InsertPermutes(s, x);
    var r := Insert(s, x);
    forall k | 0 <= k < |r| ensures r[k].createdAt >= floor {
      assert r[k] in multiset(s) + multiset{x};
    }
  }

  lemma {:induction false} InsertKeepsTies(s: seq<Version>, x: Version, t: int)
    ensures Ties(Insert(s, x), t) == Ties(s, t) + Ties([x], t)
  {
    if s == [] {
      assert [] + [x] == [x];
    } else if s[|s| - 1].createdAt >= x.createdAt {
      TiesAppend(s, [x], t);
    } else {
      var init, last := s[..|s| - 1], s[|s| - 1];
      assert s == init + [last];
      InsertKeepsTies(init, x, t);
      TiesAppend(Insert(init, x), [last], t);
      TiesAppend(init, [last], t);
      assert Ties([last], t) == [] || Ties([x], t) == [];
    }
  }

  /** The sort returns a rearrangement of its input. */
  lemma {:induction false} SortPermutes(s: seq<Version>)
    ensures multiset(SortNewestFirst(s)) == multiset(s)
  {
    if s != [] {
      var init, last := s[..|s| - 1], s[|s| - 1];
      var sortedInit := SortNewestFirst(init);
      assert SortNewestFirst(s) == Insert(sortedInit, last);
      SortPermutes(init);
      InsertPermutes(sortedInit, last);
      SnocMultiset(s);
    }
  }

  lemma SnocMultiset(s: seq<Version>)
    requires s != []
    ensures multiset(s) == multiset(s[..|s| - 1]) + multiset{s[|s| - 1]}
  {
    assert s == s[..|s| - 1] + [s[|s| - 1]];
  }

  /** The sort puts the newest versions first. */
  lemma {:induction false} SortOrders(s: seq<Version>)
    ensures NewestFirst(SortNewestFirst(s))
  {
    if s != [] {
      SortOrders(s[..|s| - 1]);
      InsertKeepsOrder(SortNewestFirst(s[..|s| - 1]), s[|s| - 1]);
    }
  }

  /** The sort is stable: versions with equal timestamps keep their input order. */
  lemma {:induction false} SortIsStable(s: seq<Version>)
    ensures forall t :: Ties(SortNewestFirst(s), t) == Ties(s, t)
  {
    if s != [] {
      var init, last := s[..|s| - 1], s[|s| - 1];
      assert s == init + [last];
      SortIsStable(init);
      forall t ensures Ties(SortNewestFirst(s), t) == Ties(s, t) {
        InsertKeepsTies(SortNewestFirst(init), last, t);
        TiesAppend(init, [last], t);
      }
    }
  }

  lemma TiesHead(s: seq<Version>)
    requires s != []
    ensures Ties(s, s[0].createdAt) == [s[0]] + Ties(s[1..], s[0].createdAt)
  {
  }

  /** Two newest-first sequences with the same ties at every instant are equal. */
  lemma {:induction false} TiesDetermine(r1: seq<Version>, r2: seq<Version>)
    requires NewestFirst(r1) && NewestFirst(r2)
    requires forall t :: Ties(r1, t) == Ties(r2, t)
    ensures r1 == r2
    decreases |r1|
  {
    if r1 == [] && r2 == [] {
    } else if r1 == [] {
      TiesHead(r2);
      assert false;
    } else if r2 == [] {
      TiesHead(r1);
      assert false;
    } else {
      var t1, t2 := r1[0].createdAt, r2[0].createdAt;
      TiesHead(r1);
      TiesHead(r2);
      TiesMember(r2, t1, r1[0]);
      TiesMember(r1, t2, r2[0]);
      assert t1 == t2;
      assert r1[0] == r2[0];
      forall t ensures Ties(r1[1..], t) == Ties(r2[1..], t) {
        var lead := if t1 == t then [r1[0]] else [];
        assert Ties(r1, t) == lead + Ties(r1[1..], t);
        assert Ties(r2, t) == lead + Ties(r2[1..], t);
        assert Ties(r1, t) == Ties(r2, t);
        assert Ties(r1[1..], t) == Ties(r1, t)[|lead|..];
      }
      TiesDetermine(r1[1..], r2[1..]);
      assert r1 == [r1[0]] + r1[1..] && r2 == [r2[0]] + r2[1..];
    }
  }

  /** Being newest first and keeping the input order of equal timestamps fixes the
      arrangement: every such rearrangement of `s` is the sort's result. */
  lemma SortIsUnique(s: seq<Version>, r: seq<Version>)
    requires NewestFirst(r)
    requires forall t :: Ties(r, t) == Ties(s, t)
    ensures r == SortNewestFirst(s)
  {
    SortOrders(s);
    SortIsStable(s);
    TiesDetermine(r, SortNewestFirst(s));
  }
}
