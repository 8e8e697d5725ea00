/** Claiming clusters (drivers/formats/fat.cpp:862-909): clusters freed before are taken first, then the table is searched.
    What a claim does to the table, when that extends the chain rightly, and when a list of freed clusters that runs out
    spoils it. */
module FatClaims {
  import opened Clusters

  /** What a claim leaves: the table, and the cluster returned, 0 for failure. */
  datatype Outcome = Outcome(table: seq<nat>, r: nat)

  /** The free clusters in a row from `first`, at most `most` of them. */
  function RunFrom(t: seq<nat>, first: nat, most: nat): nat
    decreases most
  {
    if most == 0 || first >= |t| || t[first] != 0 then 0 else 1 + RunFrom(t, first + 1, most - 1)
  }

  /** The search from `cluster` on for `left` clusters to link after `last`. */
  function Search(t: seq<nat>, bound: nat, eof: nat, cluster: nat, last: nat, left: nat): Outcome
    requires bound <= |t| && left > 0
    decreases bound - cluster
  {
    if cluster >= bound then Outcome(WithSpan(t, last, eof, 1), 0)
    else if t[cluster] != 0 then Search(t, bound, eof, cluster + 1, last, left)
    else
      var n := RunFrom(t, cluster, left);
      var u := WithSpan(t, last, cluster, n);
      if n >= left then Outcome(WithSpan(u, cluster + n - 1, eof, 1), cluster + n - 1)
      else Search(u, bound, eof, cluster + n + 1, cluster + n - 1, left - n)
  }

  /** `fat_claim_clusters`: the clusters on the list from the last one on, then the search. */
  function Claim(t: seq<nat>, bound: nat, eof: nat, list: seq<nat>, last: nat, num: nat): (Outcome, seq<nat>)
    requires bound <= |t| && num > 0
    decreases |list|
  {
    if list == [] then (Search(t, bound, eof, 0, last, num), [])
    else
      var rest, x := list[..|list| - 1], list[|list| - 1];
      var u := WithSpan(t, last, x, 1);
      if num == 1 then (Outcome(WithSpan(u, x, eof, 1), x), rest) else Claim(u, bound, eof, rest, x, num - 1)
  }

  /** What a claim starts from: reserved entries, an entry at or after the bound that is not free, and a chain or none. */
  ghost predicate World(was: seq<nat>, limit: nat, eof: nat, bound: nat, s: seq<nat>) {
    && 2 <= limit < |was| && bound <= limit <= eof && was[0] != 0 && was[1] != 0 && was[limit] != 0
    && (s == [] || IsChain(was, limit, eof, s))
  }

  /** The chain `s` is extended by `num` free clusters `more`, or by fewer if 0 is returned; nothing else changes. */
  ghost predicate LinkedWith(was: seq<nat>, o: Outcome, limit: nat, eof: nat, s: seq<nat>, num: nat, more: seq<nat>) {
    && Claimed(was, o.table, limit, s, more)
    && (if s + more == [] then o.table == was else IsChain(o.table, limit, eof, s + more))
    && (if o.r != 0 then |more| == num && o.r == LastOf(more) else |more| < num)
  }

  ghost predicate Linked(was: seq<nat>, o: Outcome, limit: nat, eof: nat, s: seq<nat>, num: nat) {
    exists more :: LinkedWith(was, o, limit, eof, s, num, more)
  }

  // ---- the search ----

  /** The clusters a search takes. */
  function Taken(t: seq<nat>, bound: nat, cluster: nat, left: nat): seq<nat>
    requires bound <= |t|
    decreases bound - cluster
  {
    if cluster >= bound || left == 0 then []
    else if t[cluster] != 0 then Taken(t, bound, cluster + 1, left)
    else
      var n := RunFrom(t, cluster, left);
      Span(cluster, n) + if n >= left then [] else Taken(t, bound, cluster + n + 1, left - n)
  }

  /** The chain has been extended by `more`, all free clusters below `cluster` among them, and `cluster` is past the end. */
  ghost predicate Found(was: seq<nat>, t: seq<nat>, limit: nat, s: seq<nat>, more: seq<nat>, cluster: nat) {
    && Extended(was, t, limit, s, more)
    && (more != [] ==> LastOf(more) < cluster)
  }

  /** What the search sees as free from where it stands is what was free and has not been taken. */
  lemma Sees(was: seq<nat>, t: seq<nat>, limit: nat, eof: nat, bound: nat, s: seq<nat>, more: seq<nat>, d: nat)
    requires World(was, limit, eof, bound, s) && Extended(was, t, limit, s, more) && d < |t| && (more == [] || d != LastOf(more))
    ensures t[d] == 0 <==> was[d] == 0 && d !in more
  {
    if d in more {
      var k :| 0 <= k < |more| && more[k] == d;
      assert (s + more)[|s| + k] == d && (s + more)[|s| + k + 1] == more[k + 1];
    } else if more != [] && s != [] && d == LastOf(s) {
      assert (s + more)[|s| - 1] == d && (s + more)[|s|] == more[0];
      ChainNotFree(was, limit, eof, s, d);
    }
  }

  lemma {:induction false} RunIs(t: seq<nat>, first: nat, most: nat)
    ensures var n := RunFrom(t, first, most);
      && n <= most && (n == 0 || first + n <= |t|) && (forall d :: first <= d < first + n ==> d < |t| && t[d] == 0)
      && (n < most ==> first + n >= |t| || t[first + n] != 0)
    decreases most
  {
    if most > 0 && first < |t| && t[first] == 0 {
      RunIs(t, first + 1, most - 1);
    }
  }

  /** One run is taken. */
  lemma TakeRun(was: seq<nat>, t: seq<nat>, limit: nat, eof: nat, bound: nat, s: seq<nat>, more: seq<nat>, cluster: nat, left: nat)
    requires World(was, limit, eof, bound, s) && Found(was, t, limit, s, more, cluster)
    requires cluster < bound && t[cluster] == 0 && left > 0
    ensures var n := RunFrom(t, cluster, left); var u := WithSpan(t, LastOf(s + more), cluster, n);
      && 2 <= cluster && 0 < n <= left && cluster + n <= limit && Extended(was, u, limit, s, more + Span(cluster, n))
      && (n < left ==> Found(was, u, limit, s, more + Span(cluster, n), cluster + n + 1))
  {
    hide WithSpan, Span, Path, IsChain;
    var n := RunFrom(t, cluster, left);
    RunIsFree(was, t, limit, eof, bound, s, more, cluster, left);
    SpanExtends(was, t, limit, eof, s, more, cluster, n);
    SpanMembers(cluster, n);
    EndsAt(s, more, cluster, n);
  }

  /** What it takes was free and not taken, and it ends at a cluster that is neither, or with enough. */
  lemma RunIsFree(was: seq<nat>, t: seq<nat>, limit: nat, eof: nat, bound: nat, s: seq<nat>, more: seq<nat>, cluster: nat, left: nat)
    requires World(was, limit, eof, bound, s) && Extended(was, t, limit, s, more) && (more != [] ==> LastOf(more) < cluster)
    requires cluster < bound && t[cluster] == 0 && left > 0
    ensures var n := RunFrom(t, cluster, left);
      && 2 <= cluster && 0 < n <= left && cluster + n <= limit && Untaken(more, cluster, n)
      && (forall d :: cluster <= d < cluster + n ==> was[d] == 0)
      && (n < left ==> was[cluster + n] != 0 || cluster + n in more)
  {
    RunIs(t, cluster, left);
    LimitFree(was, t, limit, s, more);
    forall d: nat | cluster <= d < |t| ensures t[d] == 0 <==> was[d] == 0 && d !in more {
      Sees(was, t, limit, eof, bound, s, more, d);
    }
    hide Extended, World;
  }

  lemma LimitFree(was: seq<nat>, t: seq<nat>, limit: nat, s: seq<nat>, more: seq<nat>)
    requires Extended(was, t, limit, s, more)
    ensures limit !in more && 0 !in more && 1 !in more
  {
    forall c | c in more ensures 2 <= c < limit {
      var k :| 0 <= k < |more| && more[k] == c;
      assert (s + more)[|s| + k] == c;
    }
  }

  lemma {:induction false} TakenSame(t: seq<nat>, u: seq<nat>, bound: nat, cluster: nat, left: nat)
    requires bound <= |t| == |u| && forall d :: cluster <= d < |t| ==> (u[d] == 0 <==> t[d] == 0)
    ensures Taken(u, bound, cluster, left) == Taken(t, bound, cluster, left)
    decreases bound - cluster
  {
    if cluster < bound && left > 0 {
      RunSame(t, u, cluster, left);
      var n := RunFrom(t, cluster, left);
      TakenSame(t, u, bound, if t[cluster] != 0 then cluster + 1 else cluster + n + 1, if t[cluster] != 0 then left else if n < left then left - n else 0);
    }
  }

  lemma {:induction false} RunSame(t: seq<nat>, u: seq<nat>, first: nat, most: nat)
    requires |t| == |u| && forall d :: first <= d < |t| ==> (u[d] == 0 <==> t[d] == 0)
    ensures RunFrom(u, first, most) == RunFrom(t, first, most)
    decreases most
  {
    if most > 0 {
      RunSame(t, u, first + 1, most - 1);
    }
  }

  /** The mark at the end makes it right: `num` clusters, or fewer when no free one is left. */
  lemma MarkLinks(was: seq<nat>, t: seq<nat>, limit: nat, eof: nat, bound: nat, s: seq<nat>, more: seq<nat>, num: nat, r: nat)
    requires World(was, limit, eof, bound, s) && Extended(was, t, limit, s, more)
    requires if r != 0 then |more| == num && r == LastOf(more)
             else |more| < num
    ensures LinkedWith(was, Outcome(WithSpan(t, LastOf(s + more), eof, 1), r), limit, eof, s, num, more)
  {
    var o := Outcome(WithSpan(t, LastOf(s + more), eof, 1), r);
    EndInTable(was, t, limit, s, more);
    SpanOfOne(t, LastOf(s + more), eof);
    if s + more == [] {
      assert s == [] && more == [];
      Untouched(was, t, limit);
    } else {
      MarkCompletes(was, t, limit, eof, s, more);
      assert o.table == t[LastOf(s + more) := eof];
      NoneFreeLeft(was, o.table, limit, eof, s, more);
    }
  }

  lemma NoneFreeLeft(was: seq<nat>, t: seq<nat>, limit: nat, eof: nat, s: seq<nat>, more: seq<nat>)
    requires Claimed(was, t, limit, s, more) && IsChain(t, limit, eof, s + more) && eof > 0
    ensures forall d :: 0 <= d < |t| && (was[d] != 0 || d in more) ==> t[d] != 0
  {
    forall d | 0 <= d < |t| && (was[d] != 0 || d in more) ensures t[d] != 0 {
      if d in s + more {
        ChainNotFree(t, limit, eof, s + more, d);
      } else if s != [] {
        assert LastOf(s) in s;
      }
    }
  }

  /** The search extends the chain by what it takes. */
  lemma {:induction false} SearchLinks(was: seq<nat>, t: seq<nat>, limit: nat, eof: nat, bound: nat, s: seq<nat>, more: seq<nat>, cluster: nat, left: nat)
    requires World(was, limit, eof, bound, s) && Found(was, t, limit, s, more, cluster) && left > 0 && bound <= |t|
    ensures LinkedWith(was, Search(t, bound, eof, cluster, LastOf(s + more), left), limit, eof, s, |more| + left,
                      more + Taken(t, bound, cluster, left))
    decreases bound - cluster
  {
    hide Extended, LinkedWith, Span, WithSpan, RunFrom, World, Found, Search, Taken, IsChain;
    WorldMeans(was, limit, eof, bound, s);
    FoundMeans(was, t, limit, s, more, cluster);
    SearchStep(t, bound, eof, cluster, LastOf(s + more), left);
    if cluster >= bound {
      MarkLinks(was, t, limit, eof, bound, s, more, |more| + left, 0);
      assert more + [] == more;
    } else if t[cluster] != 0 {
      FoundNext(was, t, limit, eof, bound, s, more, cluster);
      SearchLinks(was, t, limit, eof, bound, s, more, cluster + 1, left);
    } else {
      var n := RunFrom(t, cluster, left);
      var u := WithSpan(t, LastOf(s + more), cluster, n);
      TakeRun(was, t, limit, eof, bound, s, more, cluster, left);
      EndsAt(s, more, cluster, n);
      if n >= left {
        MarkLinks(was, u, limit, eof, bound, s, more + Span(cluster, n), |more| + left, cluster + n - 1);
        assert more + (Span(cluster, n) + []) == more + Span(cluster, n);
      } else {
        RestSame(was, t, limit, eof, bound, s, more, cluster, n, left);
        SearchLinks(was, u, limit, eof, bound, s, more + Span(cluster, n), cluster + n + 1, left - n);
      }
    }
  }

  lemma SearchStep(t: seq<nat>, bound: nat, eof: nat, cluster: nat, last: nat, left: nat)
    requires bound <= |t| && left > 0
    ensures cluster >= bound ==> Search(t, bound, eof, cluster, last, left) == Outcome(WithSpan(t, last, eof, 1), 0)
                                 && Taken(t, bound, cluster, left) == []
    ensures cluster < bound && t[cluster] != 0 ==>
      && Search(t, bound, eof, cluster, last, left) == Search(t, bound, eof, cluster + 1, last, left)
      && Taken(t, bound, cluster, left) == Taken(t, bound, cluster + 1, left)
    ensures cluster < bound && t[cluster] == 0 ==>
      var n := RunFrom(t, cluster, left); var u := WithSpan(t, last, cluster, n);
      && |u| == |t| && Taken(t, bound, cluster, left) == Span(cluster, n) + (if n >= left then [] else Taken(t, bound, cluster + n + 1, left - n))
      && Search(t, bound, eof, cluster, last, left) == if n >= left then Outcome(WithSpan(u, cluster + n - 1, eof, 1), cluster + n - 1)
                                                       else Search(u, bound, eof, cluster + n + 1, cluster + n - 1, left - n)
  {
  }

  /** A cluster that is not free is passed. */
  lemma FoundNext(was: seq<nat>, t: seq<nat>, limit: nat, eof: nat, bound: nat, s: seq<nat>, more: seq<nat>, cluster: nat)
    requires World(was, limit, eof, bound, s) && Found(was, t, limit, s, more, cluster) && cluster < |t| && t[cluster] != 0
    ensures Found(was, t, limit, s, more, cluster + 1)
  {
    hide Extended, World;
    Sees(was, t, limit, eof, bound, s, more, cluster);
  }

  /** Linking a run changes nothing of what is taken after it. */
  lemma RestSame(was: seq<nat>, t: seq<nat>, limit: nat, eof: nat, bound: nat, s: seq<nat>, more: seq<nat>, cluster: nat, n: nat, left: nat)
    requires Extended(was, t, limit, s, more) && (more != [] ==> LastOf(more) < cluster) && 0 < n < left && cluster > 0
    requires (s == [] || (IsChain(was, limit, eof, s) && eof > 0)) && bound <= |t|
    ensures var u := WithSpan(t, LastOf(s + more), cluster, n);
      |u| == |t| && more + (Span(cluster, n) + Taken(t, bound, cluster + n + 1, left - n))
                 == more + Span(cluster, n) + Taken(u, bound, cluster + n + 1, left - n)
  {
    AboveSpan(was, t, limit, eof, s, more, cluster, n);
    hide WithSpan, Span, Taken, Extended, IsChain;
    TakenSame(t, WithSpan(t, LastOf(s + more), cluster, n), bound, cluster + n + 1, left - n);
  }

  lemma WorldMeans(was: seq<nat>, limit: nat, eof: nat, bound: nat, s: seq<nat>)
    requires World(was, limit, eof, bound, s)
    ensures 2 <= limit < |was| && bound <= limit <= eof && (s == [] || IsChain(was, limit, eof, s))
  {
  }

  lemma FoundMeans(was: seq<nat>, t: seq<nat>, limit: nat, s: seq<nat>, more: seq<nat>, cluster: nat)
    requires Found(was, t, limit, s, more, cluster)
    ensures |t| == |was| && (more != [] ==> LastOf(s + more) == LastOf(more) < cluster) && Extended(was, t, limit, s, more)
  {
  }

  /** Linking a run changes nothing of what is free above it. */
  lemma AboveSpan(was: seq<nat>, t: seq<nat>, limit: nat, eof: nat, s: seq<nat>, more: seq<nat>, first: nat, num: nat)
    requires Extended(was, t, limit, s, more) && (more != [] ==> LastOf(more) < first) && num > 0 && first > 0
    requires s == [] || (IsChain(was, limit, eof, s) && eof > 0)
    ensures var u := WithSpan(t, LastOf(s + more), first, num);
      |u| == |t| && forall d :: first + num <= d < |t| ==> (u[d] == 0 <==> t[d] == 0)
  {
    if more == [] && s != [] {
      assert s + more == s && LastOf(s) in s;
      ChainNotFree(was, limit, eof, s, LastOf(s));
    }
  }

  // ---- how many clusters a search takes, and how far it goes ----

  function FreeCells(t: seq<nat>, lo: nat, hi: nat): nat
    decreases hi - lo
  {
    if lo >= hi || lo >= |t| then 0 else (if t[lo] == 0 then 1 else 0) + FreeCells(t, lo + 1, hi)
  }

  /** Where the search can get to: past the bound only by a run that crosses it. */
  function Reach(t: seq<nat>, bound: nat): nat
    requires bound <= |t|
  {
    if bound > 0 && t[bound - 1] == 0 then bound + RunFrom(t, bound, |t|) else bound
  }

  lemma {:induction false} FreeRun(t: seq<nat>, lo: nat, n: nat, hi: nat)
    requires lo + n <= hi && lo + n <= |t| && forall d :: lo <= d < lo + n ==> t[d] == 0
    ensures FreeCells(t, lo, hi) == n + FreeCells(t, lo + n, hi)
    decreases n
  {
    if n > 0 {
      FreeRun(t, lo + 1, n - 1, hi);
    }
  }

  /** A run that crosses the bound ends where the search can get to, or earlier if it is cut short. */
  lemma RunReach(t: seq<nat>, bound: nat, cluster: nat, left: nat)
    requires cluster < bound <= |t| && t[cluster] == 0
    ensures var n := RunFrom(t, cluster, left);
      && cluster + n <= Reach(t, bound) && (n < left && cluster + n >= bound ==> cluster + n == Reach(t, bound))
  {
    RunIs(t, cluster, left);
    RunIs(t, bound, |t|);
  }

  /** The search takes as many as it is asked for, or all within its reach. */
  lemma {:induction false} TakenCount(t: seq<nat>, bound: nat, cluster: nat, left: nat)
    requires bound <= |t| && (cluster < bound || cluster >= Reach(t, bound))
    ensures |Taken(t, bound, cluster, left)| ==
      if left <= FreeCells(t, cluster, Reach(t, bound)) then left else FreeCells(t, cluster, Reach(t, bound))
    decreases bound - cluster
  {
    if cluster < bound && left > 0 {
      if t[cluster] != 0 {
        TakenCount(t, bound, cluster + 1, left);
      } else {
        var n := RunFrom(t, cluster, left);
        RunIs(t, cluster, left);
        RunReach(t, bound, cluster, left);
        FreeRun(t, cluster, n, Reach(t, bound));
        hide Reach, RunFrom;
        if n < left {
          TakenCount(t, bound, cluster + n + 1, left - n);
        }
      }
    }
  }

  /** The clusters of `s` are free ones from `cluster` on, in order, and none is passed over. */
  ghost predicate Lowest(t: seq<nat>, cluster: nat, s: seq<nat>) {
    && (forall i :: 0 <= i < |s| ==> cluster <= s[i] < |t| && t[s[i]] == 0)
    && (forall i, j :: 0 <= i < j < |s| ==> s[i] < s[j])
    && (forall d: nat, i :: cluster <= d && 0 <= i < |s| && d < s[i] && t[d] == 0 ==> d in s)
  }

  lemma {:induction false} TakenIsLowest(t: seq<nat>, bound: nat, cluster: nat, left: nat)
    requires bound <= |t|
    ensures Lowest(t, cluster, Taken(t, bound, cluster, left))
    decreases bound - cluster
  {
    if cluster < bound && left > 0 {
      if t[cluster] != 0 {
        TakenIsLowest(t, bound, cluster + 1, left);
      } else {
        hide Lowest;
        var n := RunFrom(t, cluster, left);
        RunIs(t, cluster, left);
        NoneIsLowest(t, cluster);
        if n < left {
          TakenIsLowest(t, bound, cluster + n + 1, left - n);
          LowestJoin(t, cluster, n, Taken(t, bound, cluster + n + 1, left - n));
        } else {
          LowestJoin(t, cluster, n, []);
        }
      }
    }
  }

  lemma NoneIsLowest(t: seq<nat>, cluster: nat)
    ensures forall c: nat :: Lowest(t, c, [])
  {
  }

  lemma LowestJoin(t: seq<nat>, cluster: nat, n: nat, rest: seq<nat>)
    requires n > 0 && cluster + n <= |t| && (forall d :: cluster <= d < cluster + n ==> t[d] == 0)
    requires (rest != [] ==> cluster + n < |t| && t[cluster + n] != 0) && Lowest(t, cluster + n + 1, rest)
    ensures Lowest(t, cluster, Span(cluster, n) + rest)
  {
    var s := Span(cluster, n) + rest;
    SpanMembers(cluster, n);
    forall d: nat, i | cluster <= d && 0 <= i < |s| && d < s[i] && t[d] == 0 ensures d in s {
      if d < cluster + n {
        assert d in Span(cluster, n);
      } else {
        assert i >= n && s[i] == rest[i - n];
      }
    }
  }

  /** A run goes over the bound and over `end`, and the free clusters below `end` are too few. */
  predicate Crosses(t: seq<nat>, bound: nat, end: nat, cluster: nat, left: nat) {
    FreeCells(t, cluster, end) < left && 0 < bound <= end < |t| && forall c :: bound - 1 <= c <= end ==> t[c] == 0
  }

  ghost predicate AllBelow(s: seq<nat>, end: nat) {
    forall c :: c in s ==> c < end
  }

  /** The search stops below `end`, at or after the bound of its loop, exactly unless a run takes it over. */
  lemma {:induction false} TakenBelowIff(t: seq<nat>, bound: nat, end: nat, cluster: nat, left: nat)
    requires bound <= |t| && bound <= end
    ensures cluster < bound ==> (AllBelow(Taken(t, bound, cluster, left), end) <==> !Crosses(t, bound, end, cluster, left))
    decreases bound - cluster
  {
    hide AllBelow, Span;
    if cluster < bound {
      if left == 0 || t[cluster] != 0 {
        NoneBelow(end);
        TakenBelowIff(t, bound, end, cluster + 1, left);
      } else {
        var n := RunFrom(t, cluster, left);
        SpanBelow(cluster, n, end);
        RunCrosses(t, bound, end, cluster, left);
        if n >= left {
          assert Span(cluster, n) + [] == Span(cluster, n);
        } else {
          var rest := Taken(t, bound, cluster + n + 1, left - n);
          BothBelow(Span(cluster, n), rest, end);
          NoneBelow(end);
          TakenBelowIff(t, bound, end, cluster + n + 1, left - n);
        }
      }
    }
  }

  lemma NoneBelow(bound: nat)
    ensures AllBelow([], bound)
  {
  }

  lemma BothBelow(a: seq<nat>, b: seq<nat>, bound: nat)
    ensures AllBelow(a + b, bound) <==> AllBelow(a, bound) && AllBelow(b, bound)
  {
    forall c | c in a || c in b ensures c in a + b {}
  }

  lemma SpanBelow(first: nat, n: nat, bound: nat)
    ensures AllBelow(Span(first, n), bound) <==> n == 0 || first + n <= bound
  {
    SpanMembers(first, n);
    assert n > 0 ==> first + n - 1 in Span(first, n);
  }

  /** The first run crosses `end`, or the rest does. */
  lemma RunCrosses(t: seq<nat>, bound: nat, end: nat, cluster: nat, left: nat)
    requires cluster < bound <= |t| && bound <= end && t[cluster] == 0 && left > 0
    ensures var n := RunFrom(t, cluster, left);
      && (n >= left || cluster + n + 1 >= bound ==> (cluster + n > end <==> Crosses(t, bound, end, cluster, left)))
      && (n < left && cluster + n + 1 < bound ==>
            (Crosses(t, bound, end, cluster, left) <==> Crosses(t, bound, end, cluster + n + 1, left - n)))
  {
    var n := RunFrom(t, cluster, left);
    RunIs(t, cluster, left);
    var m := if cluster + n > end then end - cluster else n;
    FreeRun(t, cluster, m, end);
  }

  // ---- clusters freed before ----

  /** Clusters that were freed: distinct, and their entries read as free. */
  ghost predicate Freed(t: seq<nat>, limit: nat, list: seq<nat>) {
    && (forall c :: c in list ==> 2 <= c < limit && c < |t| && t[c] == 0)
    && (forall i, j :: 0 <= i < j < |list| ==> list[i] != list[j])
  }

  /** The table when the whole list has been taken. */
  function Drained(t: seq<nat>, list: seq<nat>, last: nat): seq<nat>
    decreases |list|
  {
    if list == [] then t else Drained(WithSpan(t, last, list[|list| - 1], 1), list[..|list| - 1], list[|list| - 1])
  }

  function Backwards(list: seq<nat>): (r: seq<nat>)
    ensures |r| == |list| && forall c :: c in r <==> c in list
  {
    if list == [] then [] else assert list == list[..|list| - 1] + [list[|list| - 1]]; [list[|list| - 1]] + Backwards(list[..|list| - 1])
  }

  lemma FreedTail(t: seq<nat>, limit: nat, list: seq<nat>)
    requires Freed(t, limit, list) && list != []
    ensures var x, rest := list[|list| - 1], list[..|list| - 1];
      && x in list && 2 <= x < limit && x < |t| && t[x] == 0 && x !in rest && Freed(t, limit, rest)
      && forall c :: c in rest ==> c in list
  {
    var rest := list[..|list| - 1];
    forall c | c in rest ensures c in list {
      var i :| 0 <= i < |rest| && rest[i] == c;
      assert list[i] == c;
    }
  }

  /** Taking one cluster off the list. */
  lemma TakeFreed(was: seq<nat>, t: seq<nat>, limit: nat, eof: nat, s: seq<nat>, more: seq<nat>, x: nat)
    requires Extended(was, t, limit, s, more) && limit <= |was| && (s == [] || (IsChain(was, limit, eof, s) && eof > 0))
    requires 2 <= x < limit && was[x] == 0 && x !in more
    ensures Extended(was, WithSpan(t, LastOf(s + more), x, 1), limit, s, more + [x])
    ensures WithSpan(t, LastOf(s + more), x, 1)[x] == 0 && LastOf(s + (more + [x])) == x
  {
    assert x !in s by {
      if x in s {
        ChainNotFree(was, limit, eof, s, x);
      }
    }
    assert s + more != [] ==> LastOf(s + more) in s + more;
    assert Span(x, 1) == [x];
    SpanExtends(was, t, limit, eof, s, more, x, 1);
    hide Path, IsChain;
    assert t[x] == was[x];
  }

  /** Taking the whole list extends the chain by it, backwards; the entry of the last one taken still reads as free. */
  lemma {:induction false} DrainExtends(was: seq<nat>, t: seq<nat>, limit: nat, eof: nat, s: seq<nat>, more: seq<nat>, list: seq<nat>)
    requires Extended(was, t, limit, s, more) && limit <= |was| && (s == [] || (IsChain(was, limit, eof, s) && eof > 0))
    requires Freed(was, limit, list) && (forall c :: c in list ==> c !in more) && list != []
    ensures Extended(was, Drained(t, list, LastOf(s + more)), limit, s, more + Backwards(list))
    ensures list[0] < |Drained(t, list, LastOf(s + more))| && Drained(t, list, LastOf(s + more))[list[0]] == 0
    ensures LastOf(more + Backwards(list)) == list[0]
    decreases |list|
  {
    hide Extended, IsChain, WithSpan, Freed, Backwards;
    var x, rest := list[|list| - 1], list[..|list| - 1];
    var u := WithSpan(t, LastOf(s + more), x, 1);
    FreedTail(was, limit, list);
    BackwardsIs(list);
    TakeFreed(was, t, limit, eof, s, more, x);
    EndInTable(was, u, limit, s, more + [x]);
    if rest == [] {
      BackwardsIs(rest);
      assert more + Backwards(list) == more + [x];
    } else {
      DrainExtends(was, u, limit, eof, s, more + [x], rest);
      assert more + Backwards(list) == more + [x] + Backwards(rest);
    }
  }

  lemma BackwardsIs(list: seq<nat>)
    ensures Backwards(list) == if list == [] then [] else [list[|list| - 1]] + Backwards(list[..|list| - 1])
  {
  }

  /** A claim whose list runs out is a search after it. */
  lemma {:induction false} ClaimDrains(t: seq<nat>, bound: nat, eof: nat, list: seq<nat>, last: nat, num: nat)
    requires bound <= |t| && 0 < |list| < num
    ensures |Drained(t, list, last)| == |t|
    ensures Claim(t, bound, eof, list, last, num) ==
      (Search(Drained(t, list, last), bound, eof, 0, list[0], num - |list|), [])
    decreases |list|
  {
    hide WithSpan, Search;
    var x, rest := list[|list| - 1], list[..|list| - 1];
    SameLength(t, last, x, 1);
    if rest != [] {
      ClaimDrains(WithSpan(t, last, x, 1), bound, eof, rest, x, num - 1);
    }
  }

  lemma SameLength(t: seq<nat>, prev: nat, first: nat, num: nat)
    ensures |WithSpan(t, prev, first, num)| == |t|
  {
  }

  /** With enough clusters on the list the claim is right, and those left on it are still free. */
  lemma {:induction false} EnoughFreedFrom(was: seq<nat>, t: seq<nat>, limit: nat, eof: nat, bound: nat, s: seq<nat>, more: seq<nat>, list: seq<nat>, num: nat)
    requires World(was, limit, eof, bound, s) && Extended(was, t, limit, s, more) && bound <= |t|
    requires Freed(was, limit, list) && (forall c :: c in list ==> c !in more) && 0 < num <= |list|
    ensures var (o, rest) := Claim(t, bound, eof, list, LastOf(s + more), num); var taken := list[|list| - num..];
      && rest == list[..|list| - num] && o.r != 0
      && LinkedWith(was, o, limit, eof, s, |more| + num, more + Backwards(taken))
    decreases |list|
  {
    hide Extended, WithSpan, LinkedWith, World;
    WorldMeans(was, limit, eof, bound, s);
    var x, rest := list[|list| - 1], list[..|list| - 1];
    var u := WithSpan(t, LastOf(s + more), x, 1);
    var taken := list[|list| - num..];
    FreedTail(was, limit, list);
    TakeFreed(was, t, limit, eof, s, more, x);
    EndInTable(was, u, limit, s, more + [x]);
    EndInTable(was, t, limit, s, more);
    assert taken[|taken| - 1] == x && taken[..|taken| - 1] == rest[|rest| - (num - 1)..];
    if num == 1 {
      MarkLinks(was, u, limit, eof, bound, s, more + [x], |more| + 1, x);
      assert Backwards(taken) == [x] + Backwards([]);
      assert more + Backwards(taken) == more + [x];
    } else {
      EnoughFreedFrom(was, u, limit, eof, bound, s, more + [x], rest, num - 1);
      assert more + Backwards(taken) == more + [x] + Backwards(taken[..|taken| - 1]);
    }
  }

  // ---- a list that runs out ----

  /** The lowest cluster from `from` on that reads as free, or the bound. */
  function FirstFree(t: seq<nat>, from: nat, bound: nat): (d: nat)
    requires bound <= |t|
    ensures from <= bound ==> from <= d <= bound
    ensures from <= d && (d < bound ==> t[d] == 0) && forall c :: from <= c < d && c < bound ==> t[c] != 0
    decreases bound - from
  {
    if from >= bound || t[from] == 0 then from else FirstFree(t, from + 1, bound)
  }

  lemma {:induction false} SearchSkips(t: seq<nat>, bound: nat, eof: nat, from: nat, last: nat, left: nat)
    requires bound <= |t| && left > 0
    ensures Search(t, bound, eof, from, last, left) == Search(t, bound, eof, FirstFree(t, from, bound), last, left)
    decreases bound - from
  {
    if from < bound && t[from] != 0 {
      SearchSkips(t, bound, eof, from + 1, last, left);
    }
  }

  lemma {:induction false} TakenSkips(t: seq<nat>, bound: nat, from: nat, left: nat)
    requires bound <= |t| && left > 0
    ensures Taken(t, bound, from, left) == Taken(t, bound, FirstFree(t, from, bound), left)
    decreases bound - from
  {
    if from < bound && t[from] != 0 {
      TakenSkips(t, bound, from + 1, left);
    }
  }

  /** What the search leaves once it has taken a run of `n` from `d`. */
  function AfterRun(u: seq<nat>, bound: nat, eof: nat, d: nat, n: nat, left: nat): Outcome
    requires bound <= |u| && 0 < n <= left
  {
    if n >= left then Outcome(WithSpan(u, d + n - 1, eof, 1), d + n - 1)
    else Search(u, bound, eof, d + n + 1, d + n - 1, left - n)
  }

  /** If the run extends the chain to `q`, the claim goes on rightly from there. */
  lemma GoesOn(was: seq<nat>, u: seq<nat>, limit: nat, eof: nat, bound: nat, s: seq<nat>, q: seq<nat>, d: nat, n: nat, left: nat)
      returns (more: seq<nat>)
    requires World(was, limit, eof, bound, s) && Extended(was, u, limit, s, q) && bound <= |u|
    requires q != [] && LastOf(q) == d + n - 1 && 0 < n <= left && d > 0
    ensures LinkedWith(was, AfterRun(u, bound, eof, d, n, left), limit, eof, s, |q| + left - n, more)
    ensures |q| <= |more| && more[..|q|] == q
  {
    assert LastOf(s + q) == LastOf(q);
    hide Extended, LinkedWith, WithSpan, World;
    if n >= left {
      more := q;
      MarkLinks(was, u, limit, eof, bound, s, q, |q|, d + n - 1);
    } else {
      more := q + Taken(u, bound, d + n + 1, left - n);
      SearchLinks(was, u, limit, eof, bound, s, q, d + n + 1, left - n);
    }
  }

  /** A claim whose list runs out: `t` is the table when it has, `x` the cluster taken last. */
  ghost predicate RunsOut(was: seq<nat>, limit: nat, eof: nat, bound: nat, s: seq<nat>, list: seq<nat>, num: nat, t: seq<nat>) {
    && World(was, limit, eof, bound, s) && Freed(was, limit, list) && 0 < |list| < num
    && t == Drained(was, list, LastOf(s)) && |t| == |was|
  }

  /** What reads as free then: what was free and not on the list, and still `x`. */
  lemma RunsOutMeans(was: seq<nat>, limit: nat, eof: nat, bound: nat, s: seq<nat>, list: seq<nat>, num: nat, t: seq<nat>)
    requires RunsOut(was, limit, eof, bound, s, list, num, t)
    ensures Extended(was, t, limit, s, Backwards(list)) && LastOf(Backwards(list)) == list[0] && Backwards(list) != []
    ensures forall c :: 0 <= c < |t| ==> (t[c] == 0 <==> was[c] == 0 && (c in list ==> c == list[0]))
    ensures 2 <= list[0] < limit && LastOf(s + Backwards(list)) == list[0]
  {
    hide WithSpan;
    assert Extended(was, was, limit, s, []) by {
      assert s + [] == s;
    }
    assert s + [] == s && [] + Backwards(list) == Backwards(list);
    DrainExtends(was, was, limit, eof, s, [], list);
    assert list[0] in list;
    forall c: nat | c < |t| ensures t[c] == 0 <==> was[c] == 0 && (c in list ==> c == list[0]) {
      if c != list[0] {
        Sees(was, t, limit, eof, bound, s, Backwards(list), c);
      }
    }
  }

  /** The first run misses `x`: the claim is right. */
  lemma MissLinks(was: seq<nat>, limit: nat, eof: nat, bound: nat, s: seq<nat>, list: seq<nat>, num: nat, t: seq<nat>, d: nat, n: nat)
    requires RunsOut(was, limit, eof, bound, s, list, num, t)
    requires d == FirstFree(t, 0, bound) < bound && n == RunFrom(t, d, num - |list|) && !(d <= list[0] < d + n)
    ensures 0 < n <= num - |list|
    ensures Linked(was, AfterRun(WithSpan(t, list[0], d, n), bound, eof, d, n, num - |list|), limit, eof, s, num)
  {
    var more0, left := Backwards(list), num - |list|;
    hide Extended, LinkedWith, WithSpan, Span, RunFrom, Drained, IsChain, Backwards;
    RunsOutMeans(was, limit, eof, bound, s, list, num, t);
    RunInside(was, t, limit, eof, bound, s, more0, d, n, left);
    SpanMembers(d, n);
    SpanExtends(was, t, limit, eof, s, more0, d, n);
    EndsAt(s, more0, d, n);
    var more := GoesOn(was, WithSpan(t, list[0], d, n), limit, eof, bound, s, more0 + Span(d, n), d, n, left);
  }

  /** The first run lies among the clusters, reads as free, and ends with enough or where nothing does. */
  lemma RunInside(was: seq<nat>, t: seq<nat>, limit: nat, eof: nat, bound: nat, s: seq<nat>, more: seq<nat>, d: nat, n: nat, left: nat)
    requires World(was, limit, eof, bound, s) && Extended(was, t, limit, s, more) && |t| == |was|
    requires forall c :: 0 <= c < |t| && t[c] == 0 ==> was[c] == 0
    requires d < bound && n == RunFrom(t, d, left) && t[d] == 0 && left > 0
    ensures 2 <= d && 0 < n <= left && d + n <= limit && (n < left ==> t[d + n] != 0)
    ensures forall c :: d <= c < d + n ==> t[c] == 0
  {
    hide Extended;
    RunIs(t, d, left);
  }

  /** The entry of the last cluster is still to be written, whatever it holds. */
  lemma LastEntry(was: seq<nat>, t: seq<nat>, u: seq<nat>, limit: nat, s: seq<nat>, more: seq<nat>)
    requires Extended(was, t, limit, s, more) && more != [] && |u| == |t|
    requires forall d :: 0 <= d < |t| && d != LastOf(s + more) ==> u[d] == t[d]
    ensures Extended(was, u, limit, s, more)
  {
    assert LastOf(s + more) == LastOf(more) && LastOf(more) in more;
    PathKept(t, u, limit, s + more);
  }

  /** The first run begins at `x`: it goes into the chain without `x`, which is there already. */
  lemma HitAtStart(was: seq<nat>, limit: nat, eof: nat, bound: nat, s: seq<nat>, list: seq<nat>, num: nat, t: seq<nat>, n: nat)
      returns (more: seq<nat>)
    requires RunsOut(was, limit, eof, bound, s, list, num, t)
    requires var x := list[0]; x == FirstFree(t, 0, bound) < bound && n == RunFrom(t, x, num - |list|)
    ensures 0 < n <= num - |list|
    ensures LinkedWith(was, AfterRun(WithSpan(t, list[0], list[0], n), bound, eof, list[0], n, num - |list|),
                      limit, eof, s, num - 1, more)
  {
    hide Extended, LinkedWith, WithSpan, Span, RunFrom, Drained, IsChain, Backwards, Search, AfterRun, Freed;
    var more0, left, x := Backwards(list), num - |list|, list[0];
    RunsOutMeans(was, limit, eof, bound, s, list, num, t);
    RunInside(was, t, limit, eof, bound, s, more0, x, n, left);
    var q := more0 + Span(x + 1, n - 1);
    StartExtends(was, t, limit, eof, bound, s, more0, x, n);
    SpanMembers(x + 1, n - 1);
    assert x in list;
    SameLength(t, x, x, n);
    hide RunsOut;
    more := GoesOn(was, WithSpan(t, x, x, n), limit, eof, bound, s, q, x, n, left);
  }

  lemma StartExtends(was: seq<nat>, t: seq<nat>, limit: nat, eof: nat, bound: nat, s: seq<nat>, more: seq<nat>, x: nat, n: nat)
    requires World(was, limit, eof, bound, s) && Extended(was, t, limit, s, more) && more != [] && LastOf(more) == x == LastOf(s + more)
    requires 2 <= x && 0 < n && x + n <= limit && Untaken(more, x + 1, n - 1) && forall c :: x < c < x + n ==> was[c] == 0
    ensures var q := more + Span(x + 1, n - 1);
      Extended(was, WithSpan(t, x, x, n), limit, s, q) && q != [] && LastOf(q) == x + n - 1 && |q| == |more| + n - 1
  {
    hide Extended, WithSpan, Span;
    SpanLength(x + 1, n - 1);
    if n == 1 {
      NoSpan(x + 1);
      assert more + Span(x + 1, 0) == more;
      OnlyLast(t, x);
      LastEntry(was, t, WithSpan(t, x, x, 1), limit, s, more);
    } else {
      SpanFromNext(t, x, n);
      SpanExtends(was, t, limit, eof, s, more, x + 1, n - 1);
      EndsAt(s, more, x + 1, n - 1);
    }
  }

  lemma NoSpan(first: nat)
    ensures Span(first, 0) == []
  {
  }

  lemma SpanLength(first: nat, num: nat)
    ensures |Span(first, num)| == num
  {
  }

  lemma OnlyLast(t: seq<nat>, x: nat)
    ensures |WithSpan(t, x, x, 1)| == |t| && forall d :: 0 <= d < |t| && d != x ==> WithSpan(t, x, x, 1)[d] == t[d]
  {
  }

  lemma SpanFromNext(t: seq<nat>, x: nat, n: nat)
    requires n > 1 && x > 0
    ensures WithSpan(t, x, x, n) == WithSpan(t, x, x + 1, n - 1)
  {
  }

  /** A new chain with a single freed cluster, in the middle of the first run: the run is the chain. */
  lemma HitAlone(was: seq<nat>, limit: nat, eof: nat, bound: nat, list: seq<nat>, num: nat, t: seq<nat>, d: nat, n: nat)
      returns (more: seq<nat>)
    requires RunsOut(was, limit, eof, bound, [], list, num, t) && |list| == 1
    requires d == FirstFree(t, 0, bound) < bound && n == RunFrom(t, d, num - 1) && d < list[0] < d + n
    ensures 0 < n <= num - 1
    ensures LinkedWith(was, AfterRun(WithSpan(t, list[0], d, n), bound, eof, d, n, num - 1), limit, eof, [], num - 1, more)
  {
    hide LinkedWith, RunFrom, Drained, IsChain, Backwards, Search, AfterRun, Extended, WithSpan, Span, Freed;
    var left, x := num - 1, list[0];
    DrainedAlone(was, list);
    assert t == was;
    RunsOutMeans(was, limit, eof, bound, [], list, num, was);
    RunInside(was, was, limit, eof, bound, [], Backwards(list), d, n, left);
    SpanAlone(was, limit, x, d, n);
    SpanMembers(d, n);
    SpanLength(d, n);
    EndsAt([], [], d, n);
    assert [] + Span(d, n) == Span(d, n);
    SameLength(was, x, d, n);
    hide RunsOut;
    more := GoesOn(was, WithSpan(was, x, d, n), limit, eof, bound, [], Span(d, n), d, n, left);
  }

  /** With no chain, taking a single cluster writes nothing. */
  lemma DrainedAlone(was: seq<nat>, list: seq<nat>)
    requires |list| == 1
    ensures Drained(was, list, LastOf([])) == was
  {
    assert list[..0] == [] && WithSpan(was, 0, list[0], 1) == was;
    assert Drained(was, [], list[0]) == was;
  }

  lemma SpanAlone(was: seq<nat>, limit: nat, x: nat, d: nat, n: nat)
    requires 2 <= d < x < d + n <= limit <= |was| && forall c :: d <= c < d + n ==> was[c] == 0
    ensures Extended(was, WithSpan(was, x, d, n), limit, [], Span(d, n))
  {
    var u := WithSpan(was, x, d, n);
    SpanIs(u, limit, d, n);
    assert [] + Span(d, n) == Span(d, n);
    SpanMembers(d, n);
  }

  // ---- when it is wrong ----

  /** What was claimed can be told from the tables: the clusters that were free and are not. */
  lemma ClaimedIs(was: seq<nat>, o: Outcome, limit: nat, eof: nat, bound: nat, s: seq<nat>, num: nat, more: seq<nat>)
    requires World(was, limit, eof, bound, s) && LinkedWith(was, o, limit, eof, s, num, more)
    ensures |o.table| == |was| && forall c: nat :: c in more <==> c < |was| && was[c] == 0 && o.table[c] != 0
  {
    if s + more != [] {
      NoneFreeLeft(was, o.table, limit, eof, s, more);
    }
    if s != [] {
      assert LastOf(s) in s;
      ChainNotFree(was, limit, eof, s, LastOf(s));
    }
  }

  /** So their number can be told too. */
  lemma CountIs(was: seq<nat>, o: Outcome, limit: nat, eof: nat, bound: nat, s: seq<nat>, num: nat, k: nat, more: seq<nat>, q: seq<nat>)
    requires World(was, limit, eof, bound, s)
    requires LinkedWith(was, o, limit, eof, s, num, more) && LinkedWith(was, o, limit, eof, s, k, q)
    ensures |more| == |q|
  {
    ClaimedIs(was, o, limit, eof, bound, s, num, more);
    ClaimedIs(was, o, limit, eof, bound, s, k, q);
    ClaimedDistinct(was, o, limit, eof, bound, s, num, more);
    ClaimedDistinct(was, o, limit, eof, bound, s, k, q);
    hide LinkedWith, World;
    SameNumber(more, q);
  }

  lemma ClaimedDistinct(was: seq<nat>, o: Outcome, limit: nat, eof: nat, bound: nat, s: seq<nat>, num: nat, more: seq<nat>)
    requires LinkedWith(was, o, limit, eof, s, num, more)
    ensures forall i, j :: 0 <= i < j < |more| ==> more[i] != more[j]
  {
    forall i, j | 0 <= i < j < |more| ensures more[i] != more[j] {
      assert (s + more)[|s| + i] == more[i] && (s + more)[|s| + j] == more[j];
    }
  }

  lemma SameNumber(a: seq<nat>, b: seq<nat>)
    requires (forall i, j :: 0 <= i < j < |a| ==> a[i] != a[j]) && (forall i, j :: 0 <= i < j < |b| ==> b[i] != b[j])
    requires forall c :: c in a <==> c in b
    ensures |a| == |b|
  {
    Members(a);
    Members(b);
    assert SetOf(a) == SetOf(b);
  }

  function SetOf(a: seq<nat>): set<nat> {
    set c | c in a
  }

  lemma {:induction false} Members(a: seq<nat>)
    requires forall i, j :: 0 <= i < j < |a| ==> a[i] != a[j]
    ensures |SetOf(a)| == |a|
  {
    if a != [] {
      var n := |a| - 1;
      Members(a[..n]);
      assert a == a[..n] + [a[n]] && a[n] !in a[..n];
      assert SetOf(a) == SetOf(a[..n]) + {a[n]};
    }
  }

  /** A claim that took `x` twice, but is otherwise in order, has one cluster too few: it is right only as a failure. */
  lemma OneTooFew(was: seq<nat>, o: Outcome, limit: nat, eof: nat, bound: nat, s: seq<nat>, num: nat, q: seq<nat>)
    requires World(was, limit, eof, bound, s) && num > 0 && LinkedWith(was, o, limit, eof, s, num - 1, q)
    ensures Linked(was, o, limit, eof, s, num) <==> o.r == 0
  {
    if o.r == 0 {
      assert LinkedWith(was, o, limit, eof, s, num, q);
    } else if Linked(was, o, limit, eof, s, num) {
      var more :| LinkedWith(was, o, limit, eof, s, num, more);
      CountIs(was, o, limit, eof, bound, s, num, num - 1, more, q);
    }
  }

  /** Two clusters of the chain that name the same next one: no claim is right that leaves this. */
  lemma TwoBefore(was: seq<nat>, o: Outcome, limit: nat, eof: nat, bound: nat, s: seq<nat>, num: nat, a: nat, b: nat, x: nat)
    requires World(was, limit, eof, bound, s) && |o.table| == |was| && a < |was| && b < |was| && a != b && x < limit
    requires o.table[a] == x && o.table[b] == x && x != 0
    requires (was[a] == 0 || a in s) && (was[b] == 0 || b in s)
    ensures !Linked(was, o, limit, eof, s, num)
  {
    if Linked(was, o, limit, eof, s, num) {
      var more :| LinkedWith(was, o, limit, eof, s, num, more);
      ClaimedIs(was, o, limit, eof, bound, s, num, more);
      var p := s + more;
      assert a in p && b in p;
      var i :| 0 <= i < |p| && p[i] == a;
      var j :| 0 <= j < |p| && p[j] == b;
      PathOnward(o.table, limit, eof, p, i, x);
      PathOnward(o.table, limit, eof, p, j, x);
    }
  }

  lemma PathOnward(t: seq<nat>, limit: nat, eof: nat, p: seq<nat>, i: nat, x: nat)
    requires IsChain(t, limit, eof, p) && i < |p| && t[p[i]] == x < eof
    ensures i + 1 < |p| && p[i + 1] == x
  {
  }

  /** The search leaves what is not free as it is, but for the entry it links from. */
  lemma {:induction false} SearchKeeps(t: seq<nat>, bound: nat, eof: nat, cluster: nat, last: nat, left: nat, c: nat)
    requires bound <= |t| && left > 0 && c < |t| && t[c] != 0 && c != last
    ensures var o := Search(t, bound, eof, cluster, last, left); |o.table| == |t| && o.table[c] == t[c]
    decreases bound - cluster
  {
    if cluster < bound {
      if t[cluster] != 0 {
        SearchKeeps(t, bound, eof, cluster + 1, last, left, c);
      } else {
        var n := RunFrom(t, cluster, left);
        RunIs(t, cluster, left);
        if n < left {
          SearchKeeps(WithSpan(t, last, cluster, n), bound, eof, cluster + n + 1, cluster + n - 1, left - n, c);
        }
      }
    }
  }

  /** The cluster before `x` in the chain, if it has one. */
  lemma BeforeLast(was: seq<nat>, limit: nat, eof: nat, bound: nat, s: seq<nat>, list: seq<nat>, num: nat, t: seq<nat>) returns (c: nat)
    requires RunsOut(was, limit, eof, bound, s, list, num, t) && (s != [] || |list| > 1)
    ensures c < |was| && c != list[0] && t[c] == list[0] && (was[c] == 0 || c in s)
  {
    hide Drained, IsChain, Backwards;
    RunsOutMeans(was, limit, eof, bound, s, list, num, t);
    var p := s + Backwards(list);
    assert |Backwards(list)| == |list|;
    c := p[|p| - 2];
    assert c == p[|p| - 2] && list[0] == p[|p| - 1];
    assert c in s || c in Backwards(list);
  }

  /** The first run begins below `x` and goes over it: the chain then skips what lies between, or has two ways into `x`. */
  lemma HitIsWrong(was: seq<nat>, limit: nat, eof: nat, bound: nat, s: seq<nat>, list: seq<nat>, num: nat, t: seq<nat>, d: nat, n: nat)
    requires RunsOut(was, limit, eof, bound, s, list, num, t) && (s != [] || |list| > 1) && bound <= |t|
    requires d == FirstFree(t, 0, bound) < bound && n == RunFrom(t, d, num - |list|) && d < list[0] < d + n
    ensures 0 < n <= num - |list|
    ensures !Linked(was, AfterRun(WithSpan(t, list[0], d, n), bound, eof, d, n, num - |list|), limit, eof, s, num)
  {
    var left, x := num - |list|, list[0];
    hide LinkedWith, Linked, RunFrom, Drained, IsChain, Backwards, Search, Extended;
    RunsOutMeans(was, limit, eof, bound, s, list, num, t);
    RunInside(was, t, limit, eof, bound, s, Backwards(list), d, n, left);
    var c := BeforeLast(was, limit, eof, bound, s, list, num, t);
    hide RunsOut;
    RunKeeps(t, bound, eof, d, n, left, x, c);
    hide WithSpan, AfterRun;
    TwoBefore(was, AfterRun(WithSpan(t, x, d, n), bound, eof, d, n, left), limit, eof, bound, s, num, c, x - 1, x);
  }

  /** Two entries name `x` when the first run has gone over it, to the end. */
  lemma RunKeeps(t: seq<nat>, bound: nat, eof: nat, d: nat, n: nat, left: nat, x: nat, c: nat)
    requires bound <= |t| && 0 < d < x < d + n <= |t| && n <= left && c < |t| && c != x && t[c] == x
    requires forall a :: d <= a < d + n ==> t[a] == 0
    ensures var o := AfterRun(WithSpan(t, x, d, n), bound, eof, d, n, left);
      |o.table| == |t| && o.table[c] == x && o.table[x - 1] == x
  {
    hide Search, RunFrom;
    var u := WithSpan(t, x, d, n);
    assert u[x - 1] == x && u[c] == x && c != d + n - 1;
    if n < left {
      SearchKeeps(u, bound, eof, d + n + 1, d + n - 1, left - n, c);
      SearchKeeps(u, bound, eof, d + n + 1, d + n - 1, left - n, x - 1);
    }
  }

  /** No free cluster below the bound: what was on the list is all there is, and the claim fails rightly. */
  lemma NoneLinks(was: seq<nat>, limit: nat, eof: nat, bound: nat, s: seq<nat>, list: seq<nat>, num: nat, t: seq<nat>)
    requires RunsOut(was, limit, eof, bound, s, list, num, t) && bound <= |t| && FirstFree(t, 0, bound) == bound
    ensures Linked(was, Search(t, bound, eof, bound, list[0], num - |list|), limit, eof, s, num)
  {
    hide Drained, IsChain, LinkedWith, WithSpan, Extended, Path;
    RunsOutMeans(was, limit, eof, bound, s, list, num, t);
    MarkLinks(was, t, limit, eof, bound, s, Backwards(list), num, 0);
  }

  // ---- exactly when a list that runs out does no harm to the chain ----

  /** The first run found does not go over `x`. */
  predicate Misses(t: seq<nat>, bound: nat, x: nat, left: nat)
    requires bound <= |t|
  {
    var d := FirstFree(t, 0, bound);
    d >= bound || !(d <= x < d + RunFrom(t, d, left))
  }

  /** It does not when there is none, or when it begins below `x` and is complete or broken off before. */
  lemma MissesIff(t: seq<nat>, bound: nat, x: nat, left: nat)
    requires bound <= |t| && x < |t| && t[x] == 0 && left > 0
    ensures var d := FirstFree(t, 0, bound);
      Misses(t, bound, x, left) <==> d >= bound || (d < x && (d + left <= x || exists y :: d < y < x && t[y] != 0))
  {
    var d := FirstFree(t, 0, bound);
    if d < bound {
      RunIs(t, d, left);
    }
  }

  /** A claim whose list runs out extends the chain rightly exactly when the first run misses the cluster `x` taken last, or
      when it fails and that run begins at `x` or has nothing to lose. */
  lemma RunsOutLinkedIff(was: seq<nat>, limit: nat, eof: nat, bound: nat, s: seq<nat>, list: seq<nat>, num: nat, t: seq<nat>)
    requires RunsOut(was, limit, eof, bound, s, list, num, t) && bound <= |t|
    ensures var x, left, o := list[0], num - |list|, Claim(was, bound, eof, list, LastOf(s), num).0;
      Linked(was, o, limit, eof, s, num) <==>
        || Misses(t, bound, x, left)
        || (o.r == 0 && (FirstFree(t, 0, bound) == x || (s == [] && |list| == 1)))
  {
    hide Linked, LinkedWith, RunFrom, Drained, Search, AfterRun, WithSpan;
    var x, left := list[0], num - |list|;
    var d := FirstFree(t, 0, bound);
    var n := RunFrom(t, d, left);
    ClaimDrains(was, bound, eof, list, LastOf(s), num);
    SearchSkips(t, bound, eof, 0, x, left);
    if d >= bound {
      NoneLinks(was, limit, eof, bound, s, list, num, t);
    } else {
      SearchTakesRun(t, bound, eof, d, x, left);
      if !(d <= x < d + n) {
        MissLinks(was, limit, eof, bound, s, list, num, t, d, n);
      } else {
        HitLinkedIff(was, limit, eof, bound, s, list, num, t, d, n);
      }
    }
  }

  lemma SearchTakesRun(t: seq<nat>, bound: nat, eof: nat, d: nat, last: nat, left: nat)
    requires d < bound <= |t| && t[d] == 0 && left > 0
    ensures var n := RunFrom(t, d, left);
      && 0 < n <= left && |WithSpan(t, last, d, n)| == |t|
      && Search(t, bound, eof, d, last, left) == AfterRun(WithSpan(t, last, d, n), bound, eof, d, n, left)
  {
    RunIs(t, d, left);
  }

  lemma HitLinkedIff(was: seq<nat>, limit: nat, eof: nat, bound: nat, s: seq<nat>, list: seq<nat>, num: nat, t: seq<nat>, d: nat, n: nat)
    requires RunsOut(was, limit, eof, bound, s, list, num, t) && bound <= |t|
    requires d == FirstFree(t, 0, bound) < bound && n == RunFrom(t, d, num - |list|) && d <= list[0] < d + n
    ensures 0 < n <= num - |list| && |WithSpan(t, list[0], d, n)| == |t|
    ensures var o := AfterRun(WithSpan(t, list[0], d, n), bound, eof, d, n, num - |list|);
      Linked(was, o, limit, eof, s, num) <==> o.r == 0 && (d == list[0] || (s == [] && |list| == 1))
  {
    hide Linked, LinkedWith, RunFrom, Drained, Search, AfterRun, WithSpan;
    RunIs(t, d, num - |list|);
    assert |WithSpan(t, list[0], d, n)| == |t| by {
      SameLength(t, list[0], d, n);
    }
    var o := AfterRun(WithSpan(t, list[0], d, n), bound, eof, d, n, num - |list|);
    if d == list[0] {
      var q := HitAtStart(was, limit, eof, bound, s, list, num, t, n);
      OneTooFew(was, o, limit, eof, bound, s, num, q);
    } else if s == [] && |list| == 1 {
      var q := HitAlone(was, limit, eof, bound, list, num, t, d, n);
      OneTooFew(was, o, limit, eof, bound, s, num, q);
    } else {
      HitIsWrong(was, limit, eof, bound, s, list, num, t, d, n);
    }
  }
}
