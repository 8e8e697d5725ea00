/** Chains of clusters in an array of entries. */
module Clusters {

  /** Distinct data clusters, each entry naming the next. */
  ghost predicate Path(t: seq<nat>, limit: nat, s: seq<nat>) {
    && limit <= |t|
    && (forall k :: 0 <= k < |s| ==> 2 <= s[k] < limit)
    && (forall k, l :: 0 <= k < l < |s| ==> s[k] != s[l])
    && (forall k :: 0 <= k < |s| - 1 ==> t[s[k]] == s[k + 1])
  }

  /** The chain of a file: a path that ends in an end-of-file mark. */
  ghost predicate IsChain(t: seq<nat>, limit: nat, eof: nat, s: seq<nat>) {
    s != [] && Path(t, limit, s) && t[s[|s| - 1]] >= eof
  }

  /** `do_write_to_fat`: link `prev` to a run of clusters and the run to itself, all but its last. */
  function WithSpan(t: seq<nat>, prev: nat, first: nat, num: nat): seq<nat> {
    seq(|t|, d requires 0 <= d < |t| => if first <= d < first + num - 1 then d + 1 else if d == prev && prev != 0 then first else t[d])
  }

  function LastOf(s: seq<nat>): nat {
    if s == [] then 0 else s[|s| - 1]
  }

  function Span(first: nat, num: nat): seq<nat> {
    seq(num, i => first + i)
  }

  /** Chain `s` of table `was` has been extended by `more`, whose last entry is still to be written; nothing else changed. */
  ghost predicate Extended(was: seq<nat>, t: seq<nat>, limit: nat, s: seq<nat>, more: seq<nat>) {
    && |t| == |was| && Path(t, limit, s + more)
    && (forall c :: c in more ==> c < |was| && was[c] == 0)
    && (forall d :: 0 <= d < |t| && d !in more && (more == [] || s == [] || d != LastOf(s)) ==> t[d] == was[d])
  }

  /** Linking a run of free clusters extends the chain by it. */
  lemma SpanExtends(was: seq<nat>, t: seq<nat>, limit: nat, eof: nat, s: seq<nat>, more: seq<nat>, first: nat, num: nat)
    requires Extended(was, t, limit, s, more) && Untaken(more, first, num) && num > 0 && 2 <= first && first + num <= limit <= |was|
    requires s == [] || (IsChain(was, limit, eof, s) && eof > 0)
    requires forall d :: first <= d < first + num ==> was[d] == 0
    ensures Extended(was, WithSpan(t, LastOf(s + more), first, num), limit, s, more + Span(first, num))
  {
    SpanPath(was, t, limit, eof, s, more, first, num);
    SpanFrame(was, t, limit, s, more, first, num);
  }

  /** The run has not been taken. */
  ghost predicate Untaken(more: seq<nat>, first: nat, num: nat) {
    forall c :: c in more ==> !(first <= c < first + num)
  }

  lemma SpanPath(was: seq<nat>, t: seq<nat>, limit: nat, eof: nat, s: seq<nat>, more: seq<nat>, first: nat, num: nat)
    requires Extended(was, t, limit, s, more) && Untaken(more, first, num) && num > 0 && 2 <= first && first + num <= limit <= |was|
    requires s == [] || (IsChain(was, limit, eof, s) && eof > 0)
    requires forall d :: first <= d < first + num ==> was[d] == 0
    ensures Path(WithSpan(t, LastOf(s + more), first, num), limit, s + (more + Span(first, num)))
  {
    var p := s + more;
    var u := WithSpan(t, LastOf(p), first, num);
    ApartFromSpan(was, t, limit, eof, s, more, first, num);
    assert Path(t, limit, p);
    hide Extended, IsChain;
    SpanIs(u, limit, first, num);
    LinkedPath(t, u, limit, p, first, num);
    assert s + (more + Span(first, num)) == p + Span(first, num);
  }

  lemma LinkedPath(t: seq<nat>, u: seq<nat>, limit: nat, p: seq<nat>, first: nat, num: nat)
    requires Path(t, limit, p) && num > 0 && limit <= |t| && u == WithSpan(t, LastOf(p), first, num) && Path(u, limit, Span(first, num))
    requires forall d :: d in p ==> !(first <= d < first + num)
    ensures Path(u, limit, p + Span(first, num))
  {
    assert p != [] ==> LastOf(p) in p && 2 <= LastOf(p) < |u| && u[LastOf(p)] == first;
    assert Span(first, num)[0] == first;
    SpanMembers(first, num);
    forall d | d in p && d != LastOf(p) ensures u[d] == t[d] {
      var k :| 0 <= k < |p| && p[k] == d;
    }
    hide Span, WithSpan;
    PathKept(t, u, limit, p);
    PathConcat(u, limit, p, Span(first, num));
  }

  lemma ApartFromSpan(was: seq<nat>, t: seq<nat>, limit: nat, eof: nat, s: seq<nat>, more: seq<nat>, first: nat, num: nat)
    requires Extended(was, t, limit, s, more) && Untaken(more, first, num) && first + num <= limit <= |was|
    requires s == [] || (IsChain(was, limit, eof, s) && eof > 0)
    requires forall d :: first <= d < first + num ==> was[d] == 0
    ensures forall d :: d in s + more ==> !(first <= d < first + num)
  {
    forall d | d in s + more ensures !(first <= d < first + num) {
      if d in s {
        ChainNotFree(was, limit, eof, s, d);
      }
    }
  }

  lemma SpanFrame(was: seq<nat>, t: seq<nat>, limit: nat, s: seq<nat>, more: seq<nat>, first: nat, num: nat)
    requires Extended(was, t, limit, s, more) && num > 0 && first + num <= limit <= |was|
    requires forall d :: first <= d < first + num ==> was[d] == 0
    ensures var u, q := WithSpan(t, LastOf(s + more), first, num), more + Span(first, num);
      && (forall d :: 0 <= d < |u| && d !in q && (s == [] || d != LastOf(s)) ==> u[d] == was[d])
      && (forall c :: c in q ==> c < |was| && was[c] == 0)
  {
    var u, q := WithSpan(t, LastOf(s + more), first, num), more + Span(first, num);
    forall d | 0 <= d < |u| && d !in q && (s == [] || d != LastOf(s)) ensures u[d] == was[d] {
      SpanMembers(first, num);
      assert more != [] ==> LastOf(s + more) == LastOf(more) && LastOf(more) in more;
      assert more == [] ==> s + more == s;
    }
  }

  lemma ChainNotFree(t: seq<nat>, limit: nat, eof: nat, s: seq<nat>, d: nat)
    requires IsChain(t, limit, eof, s) && eof > 0 && d in s
    ensures d < |t| && t[d] != 0
  {
    var k :| 0 <= k < |s| && s[k] == d;
    assert k < |s| - 1 ==> t[s[k]] == s[k + 1];
  }

  /** A path none of whose entries changed, but perhaps the last. */
  lemma PathKept(t: seq<nat>, u: seq<nat>, limit: nat, p: seq<nat>)
    requires Path(t, limit, p) && |u| == |t|
    requires forall d :: d in p && d != LastOf(p) ==> d < |t| && u[d] == t[d]
    ensures Path(u, limit, p)
  {
  }

  lemma SpanIs(u: seq<nat>, limit: nat, first: nat, num: nat)
    requires 2 <= first && first + num <= limit <= |u| && forall d :: first <= d < first + num - 1 ==> u[d] == d + 1
    ensures Path(u, limit, Span(first, num))
  {
  }

  lemma SpanMembers(first: nat, num: nat)
    ensures forall d :: d in Span(first, num) <==> first <= d < first + num
  {
    forall d | first <= d < first + num ensures d in Span(first, num) {
      assert Span(first, num)[d - first] == d;
    }
  }

  lemma PathConcat(u: seq<nat>, limit: nat, p: seq<nat>, q: seq<nat>)
    requires Path(u, limit, p) && Path(u, limit, q) && limit <= |u| && forall d :: d in p ==> d !in q
    requires p != [] && q != [] ==> u[p[|p| - 1]] == q[0]
    ensures Path(u, limit, p + q)
  {
    var r := p + q;
    forall k, l | 0 <= k < l < |r| ensures r[k] != r[l] {
      assert k < |p| ==> r[k] in p;
      assert l >= |p| ==> r[l] in q;
    }
    forall k | 0 <= k < |r| - 1 ensures u[r[k]] == r[k + 1] {
      assert k >= |p| ==> u[q[k - |p|]] == q[k - |p| + 1];
    }
  }

  /** The end-of-file mark makes the extension a chain. */
  lemma MarkCompletes(was: seq<nat>, t: seq<nat>, limit: nat, eof: nat, s: seq<nat>, more: seq<nat>)
    requires Extended(was, t, limit, s, more) && s + more != []
    ensures LastOf(s + more) < |t|
    ensures IsChain(t[LastOf(s + more) := eof], limit, eof, s + more)
    ensures Claimed(was, t[LastOf(s + more) := eof], limit, s, more)
  {
    var p := s + more;
    assert p[|p| - 1] < |t|;
    assert LastOf(p) == if more != [] then LastOf(more) else LastOf(s);
    assert more != [] ==> LastOf(more) in more;
    forall c | c in more ensures 2 <= c < limit {
      var k :| 0 <= k < |more| && more[k] == c;
      assert p[|s| + k] == c;
    }
    PathKept(t, t[LastOf(p) := eof], limit, p);
  }

  /** Nothing changed but the entries of the clusters that were claimed and of the one they were linked to. */
  ghost predicate Claimed(was: seq<nat>, t: seq<nat>, limit: nat, s: seq<nat>, more: seq<nat>) {
    && |t| == |was|
    && (forall c :: c in more ==> 2 <= c < limit && c < |was| && was[c] == 0)
    && (forall d :: 0 <= d < |t| && d !in more && (s == [] || d != LastOf(s)) ==> t[d] == was[d])
  }

  lemma EndsAt(s: seq<nat>, more: seq<nat>, first: nat, num: nat)
    requires num > 0
    ensures LastOf(s + (more + Span(first, num))) == LastOf(more + Span(first, num)) == first + num - 1
    ensures |more + Span(first, num)| == |more| + num
  {
  }

  lemma EndInTable(was: seq<nat>, t: seq<nat>, limit: nat, s: seq<nat>, more: seq<nat>)
    requires Extended(was, t, limit, s, more)
    ensures |t| == |was| && limit <= |t| && (s + more != [] ==> 2 <= LastOf(s + more) < limit)
  {
  }

  lemma Untouched(was: seq<nat>, t: seq<nat>, limit: nat)
    requires Extended(was, t, limit, [], [])
    ensures t == was && Claimed(was, t, limit, [], [])
  {
  }

  lemma SpanOfOne(t: seq<nat>, prev: nat, first: nat)
    requires prev < |t|
    ensures WithSpan(t, prev, first, 1) == if prev != 0 then t[prev := first] else t
  {
  }

  lemma SpanOfNext(t: seq<nat>, prev: nat, first: nat, num: nat)
    requires num > 0 && first + num <= |t|
    ensures WithSpan(t, prev, first, num + 1) == WithSpan(t, prev, first, num)[first + num - 1 := first + num]
  {
  }

  /** A path is no longer than the table. */
  lemma {:induction false} ShortPath(s: seq<nat>, n: nat)
    requires forall k :: 0 <= k < |s| ==> s[k] < n
    requires forall k, l :: 0 <= k < l < |s| ==> s[k] != s[l]
    ensures |s| <= n
    decreases n
  {
    assert s != [] ==> s[0] < n;
    if n > 0 {
      if i :| 0 <= i < |s| && s[i] == n - 1 {
        var rest := s[..i] + s[i + 1..];
        forall k | 0 <= k < |rest| ensures rest[k] == s[if k < i then k else k + 1] && rest[k] < n - 1 {
          assert s[if k < i then k else k + 1] != s[i];
        }
        ShortPath(rest, n - 1);
      } else {
        ShortPath(s, n - 1);
      }
    }
  }

  /** Every other file keeps its chain, and the extended chain shares no cluster with it. */
  lemma OthersKept(was: seq<nat>, t: seq<nat>, limit: nat, eof: nat, s: seq<nat>, more: seq<nat>, u: seq<nat>)
    requires Claimed(was, t, limit, s, more) && IsChain(was, limit, eof, u) && eof > 0
    requires forall c :: c in u ==> c !in s
    ensures IsChain(t, limit, eof, u) && forall c :: c in u ==> c !in s + more
  {
    forall k | 0 <= k < |u| ensures u[k] !in more && u[k] != LastOf(s) && t[u[k]] == was[u[k]] {
      assert u[k] in u;
      assert k < |u| - 1 ==> was[u[k]] == u[k + 1];
      if s != [] {
        assert LastOf(s) in s;
      }
    }
  }

  /** A cluster has one chain onward, so two chains from one cluster are the same. */
  lemma {:induction false} ChainUnique(t: seq<nat>, limit: nat, eof: nat, s: seq<nat>, u: seq<nat>)
    requires IsChain(t, limit, eof, s) && IsChain(t, limit, eof, u) && s[0] == u[0] && limit <= eof
    ensures s == u
    decreases |s|
  {
    assert |s| > 1 ==> t[s[0]] == s[1] && s[1] < eof;
    assert |u| > 1 ==> t[u[0]] == u[1] && u[1] < eof;
    if |s| > 1 {
      TailIsChain(t, limit, eof, s);
      TailIsChain(t, limit, eof, u);
      ChainUnique(t, limit, eof, s[1..], u[1..]);
      assert s == [s[0]] + s[1..] && u == [u[0]] + u[1..];
    }
  }

  lemma TailIsChain(t: seq<nat>, limit: nat, eof: nat, s: seq<nat>)
    requires IsChain(t, limit, eof, s) && t[s[0]] < eof
    ensures |s| > 1 && t[s[0]] == s[1] && IsChain(t, limit, eof, s[1..])
  {
  }
}
