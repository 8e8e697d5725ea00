/** What a claim is worth to the volume: when it extends the chain as promised, with clusters of the volume only, and fails
    only when the volume has none left. */
module FatOutcomes {
  import opened Clusters
  import opened FatClaims

  /** `num_clusters` counts the data clusters, and the first is number 2: this is where they end. The loop of the search
      ends at `num_clusters` itself. */
  function End(bound: nat): nat {
    bound + 2
  }

  ghost predicate NoneFree(t: seq<nat>, end: nat) {
    forall c :: 0 <= c < |t| && c < end ==> t[c] != 0
  }

  /** What a claim promises: the chain `s` is extended by `num` free clusters of the volume, or by fewer and then all it has;
      nothing else changes. */
  ghost predicate RightWith(was: seq<nat>, o: Outcome, limit: nat, eof: nat, bound: nat, s: seq<nat>, num: nat, more: seq<nat>) {
    && LinkedWith(was, o, limit, eof, s, num, more) && AllBelow(more, End(bound))
    && (o.r == 0 ==> NoneFree(o.table, End(bound)))
  }

  ghost predicate Right(was: seq<nat>, o: Outcome, limit: nat, eof: nat, bound: nat, s: seq<nat>, num: nat) {
    exists more :: RightWith(was, o, limit, eof, bound, s, num, more)
  }

  /** The clusters that are free no more lie in the volume. */
  ghost predicate TakesBelow(was: seq<nat>, t: seq<nat>, end: nat) {
    |t| == |was| && forall c :: 0 <= c < |t| && was[c] == 0 && t[c] != 0 ==> c < end
  }

  lemma RightIs(was: seq<nat>, o: Outcome, limit: nat, eof: nat, bound: nat, s: seq<nat>, num: nat)
    requires World(was, limit, eof, bound, s)
    ensures Right(was, o, limit, eof, bound, s, num) <==>
      && Linked(was, o, limit, eof, s, num) && TakesBelow(was, o.table, End(bound))
      && (o.r == 0 ==> NoneFree(o.table, End(bound)))
  {
    hide World, LinkedWith, NoneFree;
    forall more | LinkedWith(was, o, limit, eof, s, num, more)
      ensures RightWith(was, o, limit, eof, bound, s, num, more) <==>
        TakesBelow(was, o.table, End(bound)) && (o.r == 0 ==> NoneFree(o.table, End(bound)))
    {
      ClaimedIs(was, o, limit, eof, bound, s, num, more);
    }
  }

  // ---- what a search leaves free ----

  /** There are fewer free clusters within the reach of the search than are wanted. */
  predicate TooFew(t: seq<nat>, bound: nat, left: nat)
    requires bound <= |t|
  {
    FreeCells(t, 0, Reach(t, bound)) < left
  }

  /** What the search takes is free and in its reach; with too few, it takes all that is. */
  lemma {:induction false} TakenIs(t: seq<nat>, bound: nat, cluster: nat, left: nat)
    requires bound <= |t|
    ensures forall c :: c in Taken(t, bound, cluster, left) ==> cluster <= c < |t| && c < Reach(t, bound) && t[c] == 0
    ensures (cluster < bound || cluster >= Reach(t, bound)) && FreeCells(t, cluster, Reach(t, bound)) < left ==>
      forall c :: cluster <= c < |t| && c < Reach(t, bound) && t[c] == 0 ==> c in Taken(t, bound, cluster, left)
    decreases bound - cluster
  {
    if cluster < bound && left > 0 {
      if t[cluster] != 0 {
        TakenIs(t, bound, cluster + 1, left);
      } else {
        var n := RunFrom(t, cluster, left);
        RunIs(t, cluster, left);
        RunReach(t, bound, cluster, left);
        FreeRun(t, cluster, n, Reach(t, bound));
        SpanMembers(cluster, n);
        hide Reach, RunFrom, Span;
        if n < left {
          TakenIs(t, bound, cluster + n + 1, left - n);
        }
      }
    }
  }

  /** After table `t`, with the clusters `taken` in use and a link or mark at `last`, unless that is 0. */
  ghost predicate Leaves(t: seq<nat>, u: seq<nat>, taken: seq<nat>, last: nat) {
    |u| == |t| && forall c :: 0 <= c < |t| ==> (u[c] == 0 <==> t[c] == 0 && c !in taken && (c == last ==> last == 0))
  }

  /** The search leaves free what was free and not taken, and links or marks where it began. */
  lemma {:induction false} SearchLeaves(t: seq<nat>, bound: nat, eof: nat, cluster: nat, last: nat, left: nat)
    requires bound <= |t| && left > 0 && eof > 0 && (cluster > 0 || (0 < |t| && t[0] != 0))
    requires last < cluster || last >= |t| || t[last] != 0
    ensures var o, taken := Search(t, bound, eof, cluster, last, left), Taken(t, bound, cluster, left);
      Leaves(t, o.table, taken, last) && (o.r == 0 <==> |taken| < left)
    decreases bound - cluster
  {
    hide Leaves, WithSpan, RunFrom, Span, Search, Taken;
    SearchStep(t, bound, eof, cluster, last, left);
    if cluster >= bound {
      MarkLeaves(t, last, eof);
    } else if t[cluster] != 0 {
      SearchLeaves(t, bound, eof, cluster + 1, last, left);
    } else {
      var n := RunFrom(t, cluster, left);
      var u := WithSpan(t, last, cluster, n);
      SearchTakesRun(t, bound, eof, cluster, last, left);
      RunSplits(t, bound, cluster, last, left);
      SpanLength(cluster, n);
      if n < left {
        SearchLeaves(u, bound, eof, cluster + n + 1, cluster + n - 1, left - n);
      } else {
        MarkLeaves(u, cluster + n - 1, eof);
      }
      LinkLeaves(t, cluster, n, last, if n < left then Taken(u, bound, cluster + n + 1, left - n) else [],
                 Search(t, bound, eof, cluster, last, left).table);
    }
  }

  lemma MarkLeaves(t: seq<nat>, last: nat, eof: nat)
    requires eof > 0
    ensures Leaves(t, WithSpan(t, last, eof, 1), [], last)
  {
  }

  /** A run is linked in, and what comes after it leaves the rest. */
  lemma LinkLeaves(t: seq<nat>, d: nat, n: nat, last: nat, rest: seq<nat>, v: seq<nat>)
    requires n > 0 && d > 0 && d + n <= |t| && forall c :: d <= c < d + n ==> t[c] == 0
    requires Leaves(WithSpan(t, last, d, n), v, rest, d + n - 1)
    ensures Leaves(t, v, Span(d, n) + rest, last)
  {
    SpanMembers(d, n);
    assert forall c :: c in Span(d, n) + rest <==> c in Span(d, n) || c in rest;
    hide Span;
  }

  /** What is taken after a run does not depend on the link to it. */
  lemma RunSplits(t: seq<nat>, bound: nat, cluster: nat, last: nat, left: nat)
    requires cluster < bound <= |t| && left > 0 && cluster > 0 && t[cluster] == 0
    requires last < cluster + RunFrom(t, cluster, left) || last >= |t| || t[last] != 0
    ensures var n := RunFrom(t, cluster, left); var u := WithSpan(t, last, cluster, n);
      && 0 < n <= left && |u| == |t| && cluster + n <= |t| && (forall c :: cluster <= c < cluster + n ==> t[c] == 0)
      && Taken(t, bound, cluster, left) == Span(cluster, n) + (if n < left then Taken(u, bound, cluster + n + 1, left - n) else [])
  {
    RunIs(t, cluster, left);
    SearchStep(t, bound, 1, cluster, last, left);
    hide Taken, Search, RunFrom, Span, WithSpan;
    var n := RunFrom(t, cluster, left);
    AboveLink(t, cluster, n, last);
    if n < left {
      TakenSame(t, WithSpan(t, last, cluster, n), bound, cluster + n + 1, left - n);
    }
  }

  lemma AboveLink(t: seq<nat>, first: nat, n: nat, last: nat)
    requires first > 0 && (last < first + n || last >= |t| || t[last] != 0)
    ensures var u := WithSpan(t, last, first, n);
      |u| == |t| && forall c :: first + n <= c < |t| ==> (u[c] == 0 <==> t[c] == 0)
  {
  }

  // ---- a list that runs out ----

  /** What reads as free to the search when the whole list has been taken: not the list, but for its first cluster, the one
      taken last. */
  function Seen(was: seq<nat>, list: seq<nat>): (t: seq<nat>)
    ensures |t| == |was| && forall c :: 0 <= c < |was| ==> (t[c] == 0 <==> was[c] == 0 && (c in list ==> c == list[0]))
  {
    seq(|was|, c requires 0 <= c < |was| => if c in list && c != list[0] then 1 else was[c])
  }

  /** And what is free. */
  function Rest(was: seq<nat>, list: seq<nat>): (t: seq<nat>)
    ensures |t| == |was| && forall c :: 0 <= c < |was| ==> (t[c] == 0 <==> was[c] == 0 && c !in list)
  {
    seq(|was|, c requires 0 <= c < |was| => if c in list then 1 else was[c])
  }

  /** `u` reads as free where `t` does, but at `x` only if `both`. */
  ghost predicate SameFree(t: seq<nat>, u: seq<nat>, x: nat, both: bool) {
    |u| == |t| && forall c :: 0 <= c < |t| ==> (u[c] == 0 <==> t[c] == 0 && (c == x ==> both))
  }

  /** The search from `x`, which still reads as free, leaves what a search would that sees it as free exactly if the first
      run goes over it. */
  lemma DrainLeaves(t: seq<nat>, u: seq<nat>, bound: nat, eof: nat, x: nat, left: nat)
    requires bound <= |t| && left > 0 && eof > 0 && 0 < x < |t| && t[x] == 0 && t[0] != 0
    requires SameFree(t, u, x, !Misses(t, bound, x, left))
    ensures var o, taken := Search(t, bound, eof, 0, x, left), Taken(u, bound, 0, left);
      && Leaves(t, o.table, taken, x) && (o.r == 0 <==> TooFew(u, bound, left))
      && (!Misses(t, bound, x, left) ==> x in taken)
  {
    hide Search, Taken, WithSpan, RunFrom, Reach, FreeCells, Leaves, SameFree;
    var d := FirstFree(t, 0, bound);
    SearchSkips(t, bound, eof, 0, x, left);
    FirstSame(t, u, bound, x, left);
    TakenSkips(u, bound, 0, left);
    ReachAtStart(u, bound);
    TakenCount(u, bound, 0, left);
    if d >= bound {
      SearchStep(t, bound, eof, bound, x, left);
      SearchStep(u, bound, eof, bound, x, left);
      MarkLeaves(t, x, eof);
    } else {
      FirstRunLeaves(t, u, bound, eof, x, left, d);
    }
  }

  lemma ReachAtStart(t: seq<nat>, bound: nat)
    requires bound <= |t|
    ensures 0 < bound || Reach(t, bound) == 0
  {
  }

  /** Both tables have their first run at the same place. */
  lemma FirstSame(t: seq<nat>, u: seq<nat>, bound: nat, x: nat, left: nat)
    requires bound <= |t| && left > 0 && SameFree(t, u, x, !Misses(t, bound, x, left))
    ensures var d := FirstFree(t, 0, bound);
      |u| == |t| && FirstFree(u, 0, bound) == d && (d < bound ==> RunFrom(u, d, left) == RunFrom(t, d, left))
  {
    var d := FirstFree(t, 0, bound);
    if d < bound {
      RunIs(t, d, left);
      RunIs(u, d, left);
    }
  }

  /** Above the first run they are the same, with the link made. */
  lemma AboveRun(t: seq<nat>, u: seq<nat>, bound: nat, x: nat, left: nat, d: nat)
    requires bound <= |t| == |u| && 0 < d < bound && d == FirstFree(t, 0, bound) && SameFree(t, u, x, !Misses(t, bound, x, left)) && x > 0
    ensures var n := RunFrom(t, d, left); var w := WithSpan(t, x, d, n);
      && |w| == |u| && (forall c :: d + n < c < |t| ==> (u[c] == 0 <==> w[c] == 0))
      && (!Misses(t, bound, x, left) ==> d <= x < d + n)
  {
  }

  lemma FirstRunLeaves(t: seq<nat>, u: seq<nat>, bound: nat, eof: nat, x: nat, left: nat, d: nat)
    requires bound <= |t| == |u| && left > 0 && eof > 0 && 0 < x && 0 < d < bound && t[d] == 0 && u[d] == 0
    requires d == FirstFree(t, 0, bound) && SameFree(t, u, x, !Misses(t, bound, x, left))
    requires RunFrom(u, d, left) == RunFrom(t, d, left)
    ensures var o, taken := Search(t, bound, eof, d, x, left), Taken(u, bound, d, left);
      Leaves(t, o.table, taken, x) && (o.r == 0 <==> |taken| < left) && (!Misses(t, bound, x, left) ==> x in taken)
  {
    hide Search, Taken, Leaves, FreeCells, Span, RunFrom, WithSpan, SameFree, Misses, FirstFree;
    var n := RunFrom(t, d, left);
    var w := WithSpan(t, x, d, n);
    RunIs(t, d, left);
    SearchTakesRun(t, bound, eof, d, x, left);
    SearchStep(u, bound, eof, d, x, left);
    SpanMembers(d, n);
    SpanLength(d, n);
    AboveRun(t, u, bound, x, left, d);
    if n < left {
      TakenSame(w, u, bound, d + n + 1, left - n);
      SearchLeaves(w, bound, eof, d + n + 1, d + n - 1, left - n);
    } else {
      MarkLeaves(w, d + n - 1, eof);
    }
    LinkLeaves(t, d, n, x, if n < left then Taken(w, bound, d + n + 1, left - n) else [], Search(t, bound, eof, d, x, left).table);
  }

  // ---- the volume ----

  /** The search fails with a free cluster of the volume left, which it cannot reach. */
  predicate Overlooks(t: seq<nat>, bound: nat, left: nat)
    requires bound <= |t|
  {
    TooFew(t, bound, left) && exists c :: Reach(t, bound) <= c < End(bound) && c < |t| && t[c] == 0
  }

  /** What the search takes lies in the volume, and it leaves nothing of it free when it fails. */
  predicate Fits(t: seq<nat>, bound: nat, left: nat)
    requires bound <= |t|
  {
    !Crosses(t, bound, End(bound), 0, left) && !Overlooks(t, bound, left)
  }

  /** The clusters `list` and those a search of `t` takes are in use now: all of them lie in the volume, and all of it is in
      use if the search failed, exactly when the list does and the search fits. */
  lemma FitsIff(was: seq<nat>, t: seq<nat>, o: Outcome, bound: nat, list: seq<nat>, left: nat)
    requires bound <= |t| == |was| == |o.table| && left > 0 && (o.r == 0 <==> TooFew(t, bound, left))
    requires forall c :: 0 <= c < |t| ==> (o.table[c] == 0 <==> t[c] == 0 && c !in Taken(t, bound, 0, left))
    requires forall c :: 0 <= c < |t| ==> (was[c] == 0 <==> t[c] == 0 || c in list)
    requires forall c :: c in list ==> c < |t| && o.table[c] != 0
    ensures (TakesBelow(was, o.table, End(bound)) && (o.r == 0 ==> NoneFree(o.table, End(bound))))
       <==> AllBelow(list, End(bound)) && Fits(t, bound, left)
  {
    hide Taken, Reach, Crosses, FreeCells;
    BelowIff(was, t, o, bound, list, left);
    NoneLeftIff(t, o, bound, left);
  }

  lemma BelowIff(was: seq<nat>, t: seq<nat>, o: Outcome, bound: nat, list: seq<nat>, left: nat)
    requires bound <= |t| == |was| == |o.table| && left > 0
    requires forall c :: 0 <= c < |t| ==> (o.table[c] == 0 <==> t[c] == 0 && c !in Taken(t, bound, 0, left))
    requires forall c :: 0 <= c < |t| ==> (was[c] == 0 <==> t[c] == 0 || c in list)
    requires forall c :: c in list ==> c < |t| && o.table[c] != 0
    ensures TakesBelow(was, o.table, End(bound)) <==> AllBelow(list, End(bound)) && !Crosses(t, bound, End(bound), 0, left)
  {
    hide Taken, Reach, Crosses, FreeCells;
    NoneCrosses(t, bound, left);
    TakenBelowIff(t, bound, End(bound), 0, left);
    TakenIs(t, bound, 0, left);
  }

  lemma NoneCrosses(t: seq<nat>, bound: nat, left: nat)
    requires bound <= |t|
    ensures bound == 0 ==> Taken(t, bound, 0, left) == [] && !Crosses(t, bound, End(bound), 0, left)
  {
  }

  lemma NoneLeftIff(t: seq<nat>, o: Outcome, bound: nat, left: nat)
    requires bound <= |t| == |o.table| && left > 0 && (o.r == 0 <==> TooFew(t, bound, left))
    requires forall c :: 0 <= c < |t| ==> (o.table[c] == 0 <==> t[c] == 0 && c !in Taken(t, bound, 0, left))
    ensures (o.r == 0 ==> NoneFree(o.table, End(bound))) <==> !Overlooks(t, bound, left)
  {
    hide Taken, Reach, FreeCells;
    ReachAtStart(t, bound);
    TakenIs(t, bound, 0, left);
  }

  // ---- exactly when a claim is right ----

  /** A claim whose list runs out is right exactly when the list lies in the volume and either the first run misses its
      first cluster, and the search of what is free fits; or the claim fails, the search of what it sees as free fits, and
      the first run begins at that cluster or has nothing to lose. */
  lemma RunsOutRightIff(was: seq<nat>, limit: nat, eof: nat, bound: nat, s: seq<nat>, list: seq<nat>, num: nat)
    requires World(was, limit, eof, bound, s) && Freed(was, limit, list) && 0 < |list| < num && bound <= |was|
    ensures var x, left, seen := list[0], num - |list|, Seen(was, list);
      Right(was, Claim(was, bound, eof, list, LastOf(s), num).0, limit, eof, bound, s, num) <==>
        && AllBelow(list, End(bound))
        && if Misses(seen, bound, x, left) then Fits(Rest(was, list), bound, left)
           else && TooFew(seen, bound, left) && Fits(seen, bound, left)
                && (FirstFree(seen, 0, bound) == x || (s == [] && |list| == 1))
  {
    hide Right, World, Freed, Claim, Search, Drained, Fits, Linked, TooFew, Misses, Leaves;
    var x, left, o := list[0], num - |list|, Claim(was, bound, eof, list, LastOf(s), num).0;
    var t := Drained(was, list, LastOf(s));
    ClaimDrains(was, bound, eof, list, LastOf(s), num);
    RightIs(was, o, limit, eof, bound, s, num);
    RunsOutLinkedIff(was, limit, eof, bound, s, list, num, t);
    DrainedFree(was, limit, eof, bound, s, list, num, t);
    var u := if Misses(t, bound, x, left) then Rest(was, list) else Seen(was, list);
    SeenMisses(t, Seen(was, list), bound, x, left);
    WorldMeans(was, limit, eof, bound, s);
    DrainLeaves(t, u, bound, eof, x, left);
    DrainedFits(was, t, u, o, bound, list, left);
  }

  lemma DrainedFree(was: seq<nat>, limit: nat, eof: nat, bound: nat, s: seq<nat>, list: seq<nat>, num: nat, t: seq<nat>)
    requires RunsOut(was, limit, eof, bound, s, list, num, t)
    ensures forall c :: 0 <= c < |t| ==> (t[c] == 0 <==> was[c] == 0 && (c in list ==> c == list[0]))
    ensures 0 < list[0] < |t| && t[list[0]] == 0 && t[0] != 0
    ensures forall c :: c in list ==> c < |was| && was[c] == 0
  {
    hide Drained, IsChain, Extended;
    RunsOutMeans(was, limit, eof, bound, s, list, num, t);
    assert list[0] in list;
  }

  /** Whether the run misses `x` depends on what reads as free only. */
  lemma SeenMisses(t: seq<nat>, u: seq<nat>, bound: nat, x: nat, left: nat)
    requires bound <= |t| == |u| && left > 0 && forall c :: 0 <= c < |t| ==> (u[c] == 0 <==> t[c] == 0)
    ensures Misses(u, bound, x, left) == Misses(t, bound, x, left) && FirstFree(u, 0, bound) == FirstFree(t, 0, bound)
  {
    if FirstFree(t, 0, bound) < bound {
      RunSame(t, u, FirstFree(t, 0, bound), left);
    }
  }

  lemma DrainedFits(was: seq<nat>, t: seq<nat>, u: seq<nat>, o: Outcome, bound: nat, list: seq<nat>, left: nat)
    requires bound <= |t| == |u| == |was| && left > 0 && list != [] && (o.r == 0 <==> TooFew(u, bound, left))
    requires forall c :: 0 <= c < |t| ==> (t[c] == 0 <==> was[c] == 0 && (c in list ==> c == list[0]))
    requires forall c :: c in list ==> c < |was| && was[c] == 0
    requires Leaves(t, o.table, Taken(u, bound, 0, left), list[0]) && list[0] > 0
    requires u == Rest(was, list) || (u == Seen(was, list) && list[0] in Taken(u, bound, 0, left))
    ensures (TakesBelow(was, o.table, End(bound)) && (o.r == 0 ==> NoneFree(o.table, End(bound))))
       <==> AllBelow(list, End(bound)) && Fits(u, bound, left)
  {
    hide Taken, TooFew, Fits, TakesBelow, NoneFree, AllBelow;
    FitsIff(was, u, o, bound, list, left);
  }

  /** The clusters a claim takes when the list is empty or long enough. */
  function Extension(t: seq<nat>, bound: nat, list: seq<nat>, num: nat): seq<nat>
    requires bound <= |t| && (list == [] || num <= |list|)
  {
    if list == [] then Taken(t, bound, 0, num) else Backwards(list[|list| - num..])
  }

  /** With no list, or one that does not run out, a claim extends the chain as promised and leaves the rest of the list free.
      It is right exactly when the search fits, or the clusters from the list lie in the volume. It fails with a free
      cluster in the volume exactly when the search overlooks one, and leaves the volume exactly when it crosses its end. */
  lemma ClaimRightIff(was: seq<nat>, limit: nat, eof: nat, bound: nat, s: seq<nat>, list: seq<nat>, num: nat)
    requires World(was, limit, eof, bound, s) && Freed(was, limit, list) && num > 0 && (list == [] || num <= |list|) && bound <= |was|
    ensures var (o, rest) := Claim(was, bound, eof, list, LastOf(s), num); var more := Extension(was, bound, list, num);
      && LinkedWith(was, o, limit, eof, s, num, more) && (o.r == 0 <==> list == [] && TooFew(was, bound, num))
      && (Right(was, o, limit, eof, bound, s, num) <==> if list == [] then Fits(was, bound, num) else AllBelow(more, End(bound)))
      && (o.r == 0 && !NoneFree(o.table, End(bound)) <==> list == [] && Overlooks(was, bound, num))
      && (list == [] ==> (AllBelow(more, End(bound)) <==> !Crosses(was, bound, End(bound), 0, num)))
      && rest == (if list == [] then [] else list[..|list| - num]) && Freed(o.table, limit, rest)
  {
    hide LinkedWith, Right, RightWith, Path, Backwards, Taken, Fits, AllBelow, NoneFree, Leaves, World, TakesBelow, Search;
    assert s + [] == s;
    WorldMeans(was, limit, eof, bound, s);
    assert Extended(was, was, limit, s, []) by {
      ChainPath(was, limit, eof, s);
    }
    hide IsChain, Extended, Freed;
    var o, more := Claim(was, bound, eof, list, LastOf(s), num).0, Extension(was, bound, list, num);
    RightIs(was, o, limit, eof, bound, s, num);
    if list == [] {
      SearchRightIff(was, limit, eof, bound, s, num);
      NothingFreed(o.table, limit);
    } else {
      EnoughFreedFrom(was, was, limit, eof, bound, s, [], list, num);
      assert [] + more == more;
      FreedStays(was, o, limit, eof, bound, s, list, num);
      ClaimedIs(was, o, limit, eof, bound, s, num, more);
      TakesOnly(was, o.table, more, End(bound));
      LinkedOnly(was, o, limit, eof, s, num, more);
    }
  }

  /** The search of a table: what it takes, when it fails, and when that is right. */
  lemma SearchRightIff(was: seq<nat>, limit: nat, eof: nat, bound: nat, s: seq<nat>, num: nat)
    requires World(was, limit, eof, bound, s) && num > 0 && bound <= |was|
    ensures var o, more := Search(was, bound, eof, 0, LastOf(s), num), Taken(was, bound, 0, num);
      && LinkedWith(was, o, limit, eof, s, num, more) && (o.r == 0 <==> TooFew(was, bound, num))
      && (Right(was, o, limit, eof, bound, s, num) <==> Fits(was, bound, num))
      && (o.r == 0 && !NoneFree(o.table, End(bound)) <==> Overlooks(was, bound, num))
      && (AllBelow(more, End(bound)) <==> !Crosses(was, bound, End(bound), 0, num))
  {
    hide LinkedWith, Right, RightWith, Path, Taken, AllBelow, NoneFree, World, TakesBelow, Search, Crosses, Reach, FreeCells;
    assert s + [] == s;
    WorldMeans(was, limit, eof, bound, s);
    assert Extended(was, was, limit, s, []) by {
      ChainPath(was, limit, eof, s);
    }
    hide IsChain, Extended;
    var o, more := Search(was, bound, eof, 0, LastOf(s), num), Taken(was, bound, 0, num);
    SearchLinks(was, was, limit, eof, bound, s, [], 0, num);
    assert [] + more == more;
    RightIs(was, o, limit, eof, bound, s, num);
    LinkedOnly(was, o, limit, eof, s, num, more);
    NoneInChain(was, limit, eof, bound, s);
    FirstTwo(was, limit, eof, bound, s);
    SearchLeaves(was, bound, eof, 0, LastOf(s), num);
    ReachAtStart(was, bound);
    TakenCount(was, bound, 0, num);
    BelowIff(was, was, o, bound, [], num);
    NoneLeftIff(was, o, bound, num);
    ClaimedIs(was, o, limit, eof, bound, s, num, more);
    TakesOnly(was, o.table, more, End(bound));
    NoneBelow(End(bound));
  }

  lemma FirstTwo(was: seq<nat>, limit: nat, eof: nat, bound: nat, s: seq<nat>)
    requires World(was, limit, eof, bound, s)
    ensures was[0] != 0 && was[1] != 0
  {
  }

  lemma TakesOnly(was: seq<nat>, t: seq<nat>, more: seq<nat>, end: nat)
    requires |t| == |was| && forall c: nat :: c in more <==> c < |was| && was[c] == 0 && t[c] != 0
    ensures TakesBelow(was, t, end) <==> AllBelow(more, end)
  {
  }

  lemma LinkedOnly(was: seq<nat>, o: Outcome, limit: nat, eof: nat, s: seq<nat>, num: nat, more: seq<nat>)
    requires LinkedWith(was, o, limit, eof, s, num, more)
    ensures Linked(was, o, limit, eof, s, num)
  {
  }

  lemma NothingFreed(t: seq<nat>, limit: nat)
    ensures Freed(t, limit, [])
  {
  }

  lemma ChainPath(was: seq<nat>, limit: nat, eof: nat, s: seq<nat>)
    requires limit <= |was| && (s == [] || IsChain(was, limit, eof, s))
    ensures Path(was, limit, s)
  {
  }

  lemma FreedStays(was: seq<nat>, o: Outcome, limit: nat, eof: nat, bound: nat, s: seq<nat>, list: seq<nat>, num: nat)
    requires World(was, limit, eof, bound, s) && Freed(was, limit, list) && 0 < num <= |list|
    requires LinkedWith(was, o, limit, eof, s, num, Backwards(list[|list| - num..]))
    ensures Freed(o.table, limit, list[..|list| - num])
  {
    hide Backwards;
    var taken, rest := list[|list| - num..], list[..|list| - num];
    Apart(list, |list| - num);
    NoneInChain(was, limit, eof, bound, s);
    forall c | c in rest ensures 2 <= c < limit && c < |o.table| && o.table[c] == 0 {
      assert c !in taken && c in list;
    }
  }

  lemma Apart(list: seq<nat>, k: nat)
    requires k <= |list| && forall i, j :: 0 <= i < j < |list| ==> list[i] != list[j]
    ensures forall c :: c in list[..k] ==> c in list && c !in list[k..]
  {
    forall c | c in list[..k] ensures c in list && c !in list[k..] {
      var i :| 0 <= i < k && list[i] == c;
    }
  }

  lemma NoneInChain(was: seq<nat>, limit: nat, eof: nat, bound: nat, s: seq<nat>)
    requires World(was, limit, eof, bound, s)
    ensures s != [] ==> LastOf(s) < |was| && was[LastOf(s)] != 0
  {
    if s != [] {
      assert LastOf(s) in s;
      ChainNotFree(was, limit, eof, s, LastOf(s));
    }
  }

  // ---- failing inputs ----

  /** Clusters 2 to 4 make up the volume. The claim fails with 3 and 4 free: the search ends before it gets there. */
  lemma OverlookedExample()
    ensures var was := [9, 9, 9, 0, 0, 9]; var o := Claim(was, 3, 8, [], 0, 1).0;
      && World(was, 5, 8, 3, []) && o == Outcome(was, 0) && Overlooks(was, 3, 1) && !Right(was, o, 5, 8, 3, [], 1)
  {
    var was := [9, 9, 9, 0, 0, 9];
    assert WithSpan(was, 0, 8, 1) == was;
    SearchSkips(was, 3, 8, 0, 0, 1);
    assert FreeCells(was, 2, 3) == 0 && FreeCells(was, 1, 3) == 0;
    assert FirstFree(was, 2, 3) == 3 && FirstFree(was, 1, 3) == 3;
    assert was[3] == 0;
    SearchRightIff(was, 5, 8, 3, [], 1);
  }

  /** In the same volume four clusters are claimed with success, the last of them past its end. */
  lemma PastTheEndExample()
    ensures var was := [9, 9, 0, 0, 0, 0, 9]; var o := Claim(was, 3, 8, [], 0, 4).0;
      && World(was, 6, 8, 3, []) && o.r == 5 && !Right(was, o, 6, 8, 3, [], 4)
  {
    var was := [9, 9, 0, 0, 0, 0, 9];
    FreeRun(was, 2, 3, 5);
    assert FreeCells(was, 1, 5) == 3 && FreeCells(was, 0, 5) == 3;
    SearchRightIff(was, 6, 8, 3, [], 4);
    SearchSkips(was, 3, 8, 0, 0, 4);
    assert FirstFree(was, 1, 3) == 2;
    assert RunFrom(was, 4, 2) == 2 && RunFrom(was, 3, 3) == 3 && RunFrom(was, 2, 4) == 4;
  }

  /** The list runs out in the middle of the first run: success is returned, and two clusters are lost. */
  lemma LostClustersExample()
    ensures var was := [9, 9, 8, 0, 0, 0, 9, 9]; var o := Claim(was, 6, 8, [5], 2, 4).0;
      && World(was, 6, 8, 6, [2]) && Freed(was, 6, [5]) && !Misses(Seen(was, [5]), 6, 5, 3) && !TooFew(Seen(was, [5]), 6, 3)
      && o == Outcome([9, 9, 5, 4, 5, 8, 9, 9], 5) && IsChain(o.table, 6, 8, [2, 5]) && !Right(was, o, 6, 8, 6, [2], 4)
  {
    var was := [9, 9, 8, 0, 0, 0, 9, 9];
    var o := Outcome([9, 9, 5, 4, 5, 8, 9, 9], 5);
    LostClustersRun();
    LostClustersSeen(was);
    hide Claim, WithSpan, Misses, TooFew, Seen, Linked, TakesBelow, NoneFree, Right;
    TwoBefore(was, o, 6, 8, 6, [2], 4, 2, 4, 5);
    RightIs(was, o, 6, 8, 6, [2], 4);
  }

  lemma LostClustersSeen(was: seq<nat>)
    requires was == [9, 9, 8, 0, 0, 0, 9, 9]
    ensures !Misses(Seen(was, [5]), 6, 5, 3) && !TooFew(Seen(was, [5]), 6, 3)
  {
    assert Seen(was, [5]) == was;
    RunIs(was, 3, 3);
    assert FirstFree(was, 2, 6) == 3;
    FreeRun(was, 3, 3, 6);
    assert FreeCells(was, 2, 6) == FreeCells(was, 3, 6);
  }

  lemma LostClustersRun()
    ensures var was := [9, 9, 8, 0, 0, 0, 9, 9];
      Claim(was, 6, 8, [5], 2, 4).0 == Outcome([9, 9, 5, 4, 5, 8, 9, 9], 5)
  {
    var was := [9, 9, 8, 0, 0, 0, 9, 9];
    var t := [9, 9, 5, 0, 0, 0, 9, 9];
    var u := [9, 9, 5, 4, 5, 3, 9, 9];
    assert WithSpan(was, 2, 5, 1) == t;
    assert WithSpan(t, 5, 3, 3) == u;
    assert WithSpan(u, 5, 8, 1) == [9, 9, 5, 4, 5, 8, 9, 9];
    assert RunFrom(t, 3, 3) == 3 by {
      assert RunFrom(t, 5, 1) == 1 && RunFrom(t, 4, 2) == 2;
    }
    hide WithSpan;
    assert FirstFree(t, 2, 6) == FirstFree(t, 3, 6) == 3;
    SearchSkips(t, 6, 8, 0, 5, 3);
    assert Search(t, 6, 8, 3, 5, 3) == Outcome([9, 9, 5, 4, 5, 8, 9, 9], 5);
    assert Claim(was, 6, 8, [5], 2, 4) == Claim(t, 6, 8, [], 5, 3);
  }
}
