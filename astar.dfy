/** `AStarPath` of utils.js: a best-first search over a graph of nodes with `connections`.
    The search keeps records `{current, previous, pValue, hValue}` that it updates in place;
    here they live in one sequence (`recs`), `previous` is an index into it (negative for
    null), and the open and closed lists hold indices. */
module AStar {
  import Seqs

  /** Each node's `connections`. */
  type Graph = map<int, seq<int>>

  /** `node.connections`; a node the map does not list has none. */
  function Nbrs(g: Graph, n: int): seq<int> {
    if n in g then g[n] else []
  }

  /** Every node the search can ever name: the start and every listed connection. */
  function Universe(g: Graph, start: int): set<int> {
    {start} + set n, i | n in g && 0 <= i < |g[n]| :: g[n][i]
  }

  lemma NbrInUniverse(g: Graph, start: int, m: int, nb: int)
    requires nb in Nbrs(g, m)
    ensures nb in Universe(g, start)
  {
    var i :| 0 <= i < |g[m]| && g[m][i] == nb;
  }

  /** No node lists itself among its connections. */
  predicate NoSelfLoops(g: Graph) {
    forall n :: n in g ==> n !in g[n]
  }

  /** `p` walks from `a` to `b` along connections. */
  predicate IsPath(g: Graph, p: seq<int>, a: int, b: int) {
    && |p| >= 1 && p[0] == a && p[|p| - 1] == b
    && forall i :: 0 <= i < |p| - 1 ==> p[i + 1] in Nbrs(g, p[i])
  }

  /** No connection leads out of `c`. */
  predicate ClosedUnder(g: Graph, c: set<int>) {
    forall n, m :: n in c && m in Nbrs(g, n) ==> m in c
  }

  lemma {:induction false} StaysInside(g: Graph, c: set<int>, p: seq<int>, k: nat)
    requires ClosedUnder(g, c) && |p| >= 1 && p[0] in c && k < |p|
    requires forall i :: 0 <= i < |p| - 1 ==> p[i + 1] in Nbrs(g, p[i])
    ensures p[k] in c
  {
    if k > 0 {
      StaysInside(g, c, p, k - 1);
      assert p[k - 1 + 1] in Nbrs(g, p[k - 1]);
      var n, m := p[k - 1], p[k];
      assert n in c && m in Nbrs(g, n);
    }
  }

  /** A set that contains `a`, leaves out `b` and is closed under connections separates them. */
  lemma NoWayOut(g: Graph, c: set<int>, a: int, b: int)
    requires ClosedUnder(g, c) && a in c && b !in c
    ensures forall p :: !IsPath(g, p, a, b)
  {
    forall p | IsPath(g, p, a, b) ensures false {
      StaysInside(g, c, p, |p| - 1);
    }
  }

  // ---------------------------------------------------------------------------------------
  // Search records

  datatype SearchRecord = SearchRecord(node: int, previous: int, pValue: real, hValue: real)

  /** The sort key `pValue + hValue`. */
  function Score(r: SearchRecord): real {
    r.pValue + r.hValue
  }

  predicate Indexed(recs: seq<SearchRecord>, s: seq<nat>) {
    forall k :: 0 <= k < |s| ==> s[k] < |recs|
  }

  /** The nodes of the records a list refers to. */
  function NodesOf(recs: seq<SearchRecord>, s: seq<nat>): set<int>
    requires Indexed(recs, s)
  {
    set idx | idx in s :: recs[idx].node
  }

  /** No node has two records in the list. */
  predicate DistinctNodes(recs: seq<SearchRecord>, s: seq<nat>)
    requires Indexed(recs, s)
  {
    forall a, b :: 0 <= a < b < |s| ==> NodeAt(recs, s, a) != NodeAt(recs, s, b)
  }

  /** No node has a record on both lists. */
  predicate Apart(recs: seq<SearchRecord>, s: seq<nat>, t: seq<nat>)
    requires Indexed(recs, s) && Indexed(recs, t)
  {
    forall a, b :: 0 <= a < |s| && 0 <= b < |t| ==> NodeAt(recs, s, a) != NodeAt(recs, t, b)
  }

  lemma ApartIsDisjoint(recs: seq<SearchRecord>, s: seq<nat>, t: seq<nat>)
    requires Indexed(recs, s) && Indexed(recs, t)
    ensures Apart(recs, s, t) <==> NodesOf(recs, s) !! NodesOf(recs, t)
  {
    if Apart(recs, s, t) {
      forall i, j | i in s && j in t ensures recs[i].node != recs[j].node {
        var a :| 0 <= a < |s| && s[a] == i;
        var b :| 0 <= b < |t| && t[b] == j;
        assert NodeAt(recs, s, a) != NodeAt(recs, t, b);
      }
    }
    if NodesOf(recs, s) !! NodesOf(recs, t) {
      forall a, b | 0 <= a < |s| && 0 <= b < |t| ensures NodeAt(recs, s, a) != NodeAt(recs, t, b) {
        assert NodeAt(recs, s, a) in NodesOf(recs, s) by { assert s[a] in s; }
        assert NodeAt(recs, t, b) in NodesOf(recs, t) by { assert t[b] in t; }
      }
    }
  }

  /** The node of the record at position `k` of a list. */
  function NodeAt(recs: seq<SearchRecord>, s: seq<nat>, k: nat): int
    requires Indexed(recs, s) && k < |s|
  {
    recs[s[k]].node
  }

  /** `recs'` extends `recs` and no record changed its node. */
  predicate SameNodes(recs: seq<SearchRecord>, recs': seq<SearchRecord>) {
    |recs| <= |recs'| && forall k :: 0 <= k < |recs| ==> recs'[k].node == recs[k].node
  }

  lemma NodesOfSame(recs: seq<SearchRecord>, recs': seq<SearchRecord>, s: seq<nat>)
    requires SameNodes(recs, recs') && Indexed(recs, s)
    ensures Indexed(recs', s) && NodesOf(recs', s) == NodesOf(recs, s)
    ensures DistinctNodes(recs, s) ==> DistinctNodes(recs', s)
  {
    forall a | 0 <= a < |s| ensures NodeAt(recs', s, a) == NodeAt(recs, s, a) {
    }
  }

  /** Every `previous` link is null only on the start record, and otherwise names a record
      whose node lists this record's node among its connections. */
  predicate PrevOk(g: Graph, start: int, recs: seq<SearchRecord>) {
    forall k :: 0 <= k < |recs| ==> LinkOk(g, start, recs, k)
  }

  predicate LinkOk(g: Graph, start: int, recs: seq<SearchRecord>, k: nat)
    requires k < |recs|
  {
    && (recs[k].previous < 0 ==> recs[k].node == start)
    && (recs[k].previous >= 0 ==> recs[k].previous < |recs| && recs[k].node in Nbrs(g, recs[recs[k].previous].node))
  }

  predicate SortedByScore(recs: seq<SearchRecord>, s: seq<nat>)
    requires Indexed(recs, s)
  {
    forall a, b :: 0 <= a < b < |s| ==> Score(recs[s[a]]) <= Score(recs[s[b]])
  }

  /** Insert `x` after every entry whose score is not greater than its own. */
  function InsertByScore(recs: seq<SearchRecord>, x: nat, s: seq<nat>): (r: seq<nat>)
    requires x < |recs| && Indexed(recs, s)
    ensures multiset(r) == multiset(s) + multiset{x} && Indexed(recs, r)
  {
    var r :=
      if |s| == 0 then [x]
      else if Score(recs[x]) < Score(recs[s[0]]) then [x] + s
      else
        assert s == [s[0]] + s[1..];
        [s[0]] + InsertByScore(recs, x, s[1..]);
    IndexedPermutation(recs, s + [x], r);
    r
  }

  /** `open.sort` by `pValue + hValue` (JavaScript's sort is stable, and so is this
      insertion sort: a record goes after every record of equal score already placed). */
  function SortByScore(recs: seq<SearchRecord>, s: seq<nat>): (r: seq<nat>)
    requires Indexed(recs, s)
    ensures multiset(r) == multiset(s) && Indexed(recs, r)
  {
    if |s| == 0 then []
    else
      var init, last := s[..|s| - 1], s[|s| - 1];
      assert s == init + [last];
      var r := InsertByScore(recs, last, SortByScore(recs, init));
      IndexedPermutation(recs, s, r);
      r
  }

  /** A permutation of an indexed list is indexed. */
  lemma IndexedPermutation(recs: seq<SearchRecord>, s: seq<nat>, t: seq<nat>)
    requires Indexed(recs, s) && multiset(s) == multiset(t)
    ensures Indexed(recs, t) && |t| == |s|
  {
    forall k | 0 <= k < |t| ensures t[k] < |recs| {
      assert t[k] in multiset(t);
      var i :| 0 <= i < |s| && s[i] == t[k];
    }
    assert |t| == |multiset(t)|;
  }

  /** A permutation refers to the same nodes. */
  lemma NodesOfPermutation(recs: seq<SearchRecord>, s: seq<nat>, t: seq<nat>)
    requires Indexed(recs, s) && multiset(s) == multiset(t)
    ensures Indexed(recs, t) && NodesOf(recs, t) == NodesOf(recs, s) && |t| == |s|
  {
    IndexedPermutation(recs, s, t);
    assert forall idx :: idx in t <==> idx in multiset(t);
    assert forall idx :: idx in s <==> idx in multiset(s);
  }

  /** Every entry of `r` is `x` or an entry of `s`. */
  lemma Drawn(r: seq<nat>, s: seq<nat>, x: nat, k: nat)
    requires multiset(r) == multiset(s) + multiset{x} && k < |r|
    ensures r[k] == x || r[k] in s
  {
    assert r[k] in multiset(r);
  }

  /** Inserting into a sorted list keeps it sorted. */
  lemma {:induction false} InsertSorted(recs: seq<SearchRecord>, x: nat, s: seq<nat>)
    requires x < |recs| && Indexed(recs, s) && SortedByScore(recs, s)
    ensures SortedByScore(recs, InsertByScore(recs, x, s))
  {
    var r := InsertByScore(recs, x, s);
    if |s| > 0 && Score(recs[x]) >= Score(recs[s[0]]) {
      var t := InsertByScore(recs, x, s[1..]);
      assert r == [s[0]] + t;
      InsertSorted(recs, x, s[1..]);
      assert s == [s[0]] + s[1..];
      forall k | 0 <= k < |t| ensures Score(recs[s[0]]) <= Score(recs[t[k]]) {
        Drawn(t, s[1..], x, k);
      }
    }
  }

  /** `SortByScore` sorts. */
  lemma {:induction false} SortSorted(recs: seq<SearchRecord>, s: seq<nat>)
    requires Indexed(recs, s)
    ensures SortedByScore(recs, SortByScore(recs, s))
  {
    if |s| > 0 {
      var init := s[..|s| - 1];
      SortSorted(recs, init);
      InsertSorted(recs, s[|s| - 1], SortByScore(recs, init));
    }
  }

  lemma NodesOfCons(recs: seq<SearchRecord>, x: nat, s: seq<nat>)
    requires x < |recs| && Indexed(recs, s)
    ensures Indexed(recs, [x] + s) && NodesOf(recs, [x] + s) == {recs[x].node} + NodesOf(recs, s)
    ensures DistinctNodes(recs, [x] + s) <==> recs[x].node !in NodesOf(recs, s) && DistinctNodes(recs, s)
  {
    var t := [x] + s;
    assert forall idx :: idx in t <==> idx == x || idx in s;
    assert NodeAt(recs, t, 0) == recs[x].node;
    assert forall b :: 0 <= b < |s| ==> NodeAt(recs, t, b + 1) == NodeAt(recs, s, b);
    if DistinctNodes(recs, t) {
      forall idx | idx in s ensures recs[idx].node != recs[x].node {
        var b :| 0 <= b < |s| && s[b] == idx;
        assert NodeAt(recs, t, 0) != NodeAt(recs, t, b + 1);
      }
      forall a, b | 0 <= a < b < |s| ensures NodeAt(recs, s, a) != NodeAt(recs, s, b) {
        assert NodeAt(recs, t, a + 1) != NodeAt(recs, t, b + 1);
      }
    }
    if recs[x].node !in NodesOf(recs, s) && DistinctNodes(recs, s) {
      forall a, b | 0 <= a < b < |t| ensures NodeAt(recs, t, a) != NodeAt(recs, t, b) {
        assert NodeAt(recs, t, b) == NodeAt(recs, s, b - 1);
        if a == 0 {
          assert NodeAt(recs, s, b - 1) in NodesOf(recs, s) by { assert s[b - 1] in s; }
        } else {
          assert NodeAt(recs, t, a) == NodeAt(recs, s, a - 1);
        }
      }
    }
  }

  lemma NodesOfSnoc(recs: seq<SearchRecord>, s: seq<nat>, x: nat)
    requires x < |recs| && Indexed(recs, s)
    ensures Indexed(recs, s + [x]) && NodesOf(recs, s + [x]) == NodesOf(recs, s) + {recs[x].node}
    ensures DistinctNodes(recs, s + [x]) <==> recs[x].node !in NodesOf(recs, s) && DistinctNodes(recs, s)
  {
    var t := s + [x];
    assert forall idx :: idx in t <==> idx == x || idx in s;
    assert NodeAt(recs, t, |s|) == recs[x].node;
    assert forall a :: 0 <= a < |s| ==> NodeAt(recs, t, a) == NodeAt(recs, s, a);
    if DistinctNodes(recs, t) {
      forall a, b | 0 <= a < b < |s| ensures NodeAt(recs, s, a) != NodeAt(recs, s, b) {
        assert NodeAt(recs, t, a) != NodeAt(recs, t, b);
      }
      forall idx | idx in s ensures recs[idx].node != recs[x].node {
        var a :| 0 <= a < |s| && s[a] == idx;
        assert NodeAt(recs, t, a) != NodeAt(recs, t, |s|);
      }
    }
    if recs[x].node !in NodesOf(recs, s) && DistinctNodes(recs, s) {
      forall a, b | 0 <= a < b < |t| ensures NodeAt(recs, t, a) != NodeAt(recs, t, b) {
        assert NodeAt(recs, t, a) == NodeAt(recs, s, a);
        if b == |s| {
          assert NodeAt(recs, s, a) in NodesOf(recs, s) by { assert s[a] in s; }
        } else {
          assert NodeAt(recs, t, b) == NodeAt(recs, s, b);
        }
      }
    }
  }

  lemma {:induction false} InsertKeepsDistinct(recs: seq<SearchRecord>, x: nat, s: seq<nat>)
    requires x < |recs| && Indexed(recs, s)
    requires DistinctNodes(recs, s) && recs[x].node !in NodesOf(recs, s)
    ensures DistinctNodes(recs, InsertByScore(recs, x, s))
  {
    if |s| == 0 {
    } else if Score(recs[x]) < Score(recs[s[0]]) {
      NodesOfCons(recs, x, s);
    } else {
      assert s == [s[0]] + s[1..];
      NodesOfCons(recs, s[0], s[1..]);
      InsertKeepsDistinct(recs, x, s[1..]);
      var t := InsertByScore(recs, x, s[1..]);
      assert t == InsertByScore(recs, x, s[1..]);
      assert multiset(t) == multiset(s[1..]) + multiset{x};
      NodesOfPermutation(recs, s[1..] + [x], t);
      NodesOfSnoc(recs, s[1..], x);
      NodesOfCons(recs, s[0], t);
    }
  }

  /** Sorting never puts two records for one node into a list that had none. */
  lemma {:induction false} SortKeepsDistinct(recs: seq<SearchRecord>, s: seq<nat>)
    requires Indexed(recs, s) && DistinctNodes(recs, s)
    ensures DistinctNodes(recs, SortByScore(recs, s))
  {
    if |s| > 0 {
      var init := s[..|s| - 1];
      assert s == init + [s[|s| - 1]];
      NodesOfSnoc(recs, init, s[|s| - 1]);
      SortKeepsDistinct(recs, init);
      NodesOfPermutation(recs, init, SortByScore(recs, init));
      InsertKeepsDistinct(recs, s[|s| - 1], SortByScore(recs, init));
    }
  }

  // ---------------------------------------------------------------------------------------
  // The pieces of one expansion

  /** The inner `for (j …)` searches: the first entry of `list` whose record is for node `n`. */
  method FindRecord(recs: seq<SearchRecord>, list: seq<nat>, n: int) returns (j: int)
    requires Indexed(recs, list)
    ensures -1 <= j < |list|
    ensures j < 0 <==> n !in NodesOf(recs, list)
    ensures j >= 0 ==> recs[list[j]].node == n && forall k :: 0 <= k < j ==> recs[list[k]].node != n
  {
    j := 0;
    while j < |list|
      invariant 0 <= j <= |list|
      invariant forall k :: 0 <= k < j ==> recs[list[k]].node != n
    {
      if recs[list[j]].node == n {
        return;
      }
      j := j + 1;
    }
    assert forall idx :: idx in list ==> recs[idx].node != n;
    j := -1;
  }

  /** The relaxation of an existing record through the current one: it takes the cheaper of
      its own `pValue` and the current record's plus `cost`, and the current record becomes
      its `previous` only when that is strictly cheaper. */
  function Relaxed(recs: seq<SearchRecord>, idx: nat, cur: nat, cost: real): (r: seq<SearchRecord>)
    requires idx < |recs| && cur < |recs|
    ensures SameNodes(recs, r) && |r| == |recs|
    ensures recs[cur].pValue + cost < recs[idx].pValue ==>
      r[idx] == recs[idx].(pValue := recs[cur].pValue + cost, previous := cur)
    ensures !(recs[cur].pValue + cost < recs[idx].pValue) ==> r == recs
    ensures forall k :: 0 <= k < |r| && k != idx ==> r[k] == recs[k]
  {
    if recs[cur].pValue + cost < recs[idx].pValue then
      recs[idx := recs[idx].(pValue := recs[cur].pValue + cost, previous := cur)]
    else recs
  }

  lemma RelaxedOk(g: Graph, start: int, recs: seq<SearchRecord>, idx: nat, cur: nat, cost: real)
    requires idx < |recs| && cur < |recs| && PrevOk(g, start, recs)
    requires recs[idx].node in Nbrs(g, recs[cur].node)
    ensures PrevOk(g, start, Relaxed(recs, idx, cur, cost))
  {
    var r := Relaxed(recs, idx, cur, cost);
    forall k | 0 <= k < |r| ensures LinkOk(g, start, r, k) {
      assert LinkOk(g, start, recs, k);
    }
  }

  lemma AddedOk(g: Graph, start: int, recs: seq<SearchRecord>, added: SearchRecord)
    requires PrevOk(g, start, recs)
    requires 0 <= added.previous < |recs| && added.node in Nbrs(g, recs[added.previous].node)
    ensures PrevOk(g, start, recs + [added])
  {
    var r := recs + [added];
    forall k | 0 <= k < |r| ensures LinkOk(g, start, r, k) {
      if k < |recs| {
        assert LinkOk(g, start, recs, k);
      }
    }
  }

  /** No tile costs less than nothing. */
  ghost predicate NonNegative(tileValue: int -> real) {
    forall n :: tileValue(n) >= 0.0
  }

  /** Record `p` comes before record `k`: a smaller `pValue`, or an equal one set earlier
      (`stamps` numbers the updates of each record's cost). */
  ghost predicate Earlier(recs: seq<SearchRecord>, stamps: seq<nat>, p: nat, k: nat)
    requires |stamps| == |recs| && p < |recs| && k < |recs|
  {
    recs[p].pValue < recs[k].pValue || (recs[p].pValue == recs[k].pValue && stamps[p] < stamps[k])
  }

  /** Every `previous` link points to an earlier record, so following links never comes back. */
  ghost predicate Ranked(recs: seq<SearchRecord>, stamps: seq<nat>) {
    && |stamps| == |recs|
    && forall k :: 0 <= k < |recs| && recs[k].previous >= 0 ==>
         recs[k].previous < |recs| && Earlier(recs, stamps, recs[k].previous, k)
  }

  lemma EarlierTrans(recs: seq<SearchRecord>, stamps: seq<nat>, a: nat, b: nat, c: nat)
    requires |stamps| == |recs| && a < |recs| && b < |recs| && c < |recs|
    requires Earlier(recs, stamps, a, b) && Earlier(recs, stamps, b, c)
    ensures Earlier(recs, stamps, a, c)
  {
  }

  /** The stamps after a relaxation: a record whose cost drops gets a stamp after the current one's. */
  ghost function Restamped(recs: seq<SearchRecord>, stamps: seq<nat>, idx: nat, cur: nat, cost: real): seq<nat>
    requires |stamps| == |recs| && idx < |recs| && cur < |recs|
  {
    if recs[cur].pValue + cost < recs[idx].pValue then stamps[idx := stamps[cur] + 1] else stamps
  }

  /** With a non-negative cost, relaxation keeps every link pointing to an earlier record:
      the relaxed record now follows the current one, and the records linked to it had a
      cost at least its old one, which is strictly more than its new one. */
  lemma RelaxedRanked(recs: seq<SearchRecord>, stamps: seq<nat>, idx: nat, cur: nat, cost: real)
    requires idx < |recs| && cur < |recs| && cost >= 0.0 && Ranked(recs, stamps)
    ensures Ranked(Relaxed(recs, idx, cur, cost), Restamped(recs, stamps, idx, cur, cost))
  {
    if recs[cur].pValue + cost < recs[idx].pValue {
      var r, st := Relaxed(recs, idx, cur, cost), Restamped(recs, stamps, idx, cur, cost);
      assert idx != cur;
      forall k | 0 <= k < |r| && r[k].previous >= 0 ensures r[k].previous < |r| && Earlier(r, st, r[k].previous, k) {
        if k != idx && r[k].previous == idx {
          assert Earlier(recs, stamps, idx, k);
        } else if k != idx {
          assert Earlier(recs, stamps, recs[k].previous, k);
        }
      }
    }
  }

  /** A new record linked to the current one, at no smaller a cost, comes after it. */
  lemma AddedRanked(recs: seq<SearchRecord>, stamps: seq<nat>, added: SearchRecord)
    requires Ranked(recs, stamps) && 0 <= added.previous < |recs|
    requires added.pValue >= recs[added.previous].pValue
    ensures Ranked(recs + [added], stamps + [stamps[added.previous] + 1])
  {
    var r, st := recs + [added], stamps + [stamps[added.previous] + 1];
    forall k | 0 <= k < |r| && r[k].previous >= 0 ensures r[k].previous < |r| && Earlier(r, st, r[k].previous, k) {
      if k < |recs| {
        assert Earlier(recs, stamps, recs[k].previous, k);
      }
    }
  }

  /** The records numbered `n` up to `n'` are appended, in order, to `open`. */
  predicate Appended(n: nat, n': nat, open: seq<nat>, open': seq<nat>) {
    && n <= n' && |open'| == |open| + (n' - n) && open'[..|open|] == open
    && forall k :: |open| <= k < |open'| ==> open'[k] == n + (k - |open|)
  }

  /** What passes of the connection loop over a record for node `c` do to the records and
      the open list: no record changes node, and each new record, appended to `open`, is for
      a connection of `c` that had no record on either list, and for a node of its own. */
  predicate Grown(g: Graph, c: int, recs: seq<SearchRecord>, open: seq<nat>, closed: seq<nat>,
                  recs': seq<SearchRecord>, open': seq<nat>)
    requires Indexed(recs, open) && Indexed(recs, closed)
  {
    && SameNodes(recs, recs') && Indexed(recs', open') && Appended(|recs|, |recs'|, open, open')
    && (forall k :: |recs| <= k < |recs'| ==>
          recs'[k].node in Nbrs(g, c) && recs'[k].node !in NodesOf(recs, open) + NodesOf(recs, closed))
    && (forall k, l :: |recs| <= k < l < |recs'| ==> recs'[k].node != recs'[l].node)
  }

  lemma GrownNodes(g: Graph, c: int, recs: seq<SearchRecord>, open: seq<nat>, closed: seq<nat>,
                   recs': seq<SearchRecord>, open': seq<nat>)
    requires Indexed(recs, open) && Indexed(recs, closed) && Grown(g, c, recs, open, closed, recs', open')
    ensures Indexed(recs', closed) && NodesOf(recs', closed) == NodesOf(recs, closed)
    ensures NodesOf(recs, open) <= NodesOf(recs', open')
    ensures forall n :: n in NodesOf(recs', open') - NodesOf(recs, open) ==>
      n in Nbrs(g, c) && n !in NodesOf(recs, closed)
    ensures (forall n :: n in Nbrs(g, c) ==> n in NodesOf(recs, open) + NodesOf(recs, closed)) ==> |open'| == |open|
    ensures DistinctNodes(recs, open) ==> DistinctNodes(recs', open')
  {
    NodesOfSame(recs, recs', closed);
    NodesOfSame(recs, recs', open);
    forall k | 0 <= k < |open| ensures open'[k] == open[k] {
      assert open'[..|open|][k] == open[k];
    }
    forall n | n in NodesOf(recs', open') - NodesOf(recs, open)
      ensures n in Nbrs(g, c) && n !in NodesOf(recs, closed)
    {
      var k :| 0 <= k < |open'| && recs'[open'[k]].node == n;
      assert k >= |open|;
    }
    if |open'| > |open| {
      var n := recs'[|recs|].node;
      assert n in Nbrs(g, c) && n !in NodesOf(recs, open) + NodesOf(recs, closed);
    }
    if DistinctNodes(recs, open) {
      forall a, b | 0 <= a < b < |open'| ensures NodeAt(recs', open', a) != NodeAt(recs', open', b) {
        if b < |open| {
          assert open'[a] == open[a] && open'[b] == open[b];
          assert NodeAt(recs, open, a) != NodeAt(recs, open, b);
        } else if a < |open| {
          assert open'[a] == open[a] && recs'[open[a]].node == recs[open[a]].node;
          assert recs[open[a]].node in NodesOf(recs, open);
          assert open'[b] == |recs| + (b - |open|);
        } else {
          assert open'[a] == |recs| + (a - |open|) && open'[b] == |recs| + (b - |open|);
        }
      }
    }
  }

  lemma GrownTrans(g: Graph, c: int, closed: seq<nat>, r0: seq<SearchRecord>, o0: seq<nat>,
                   r1: seq<SearchRecord>, o1: seq<nat>, r2: seq<SearchRecord>, o2: seq<nat>)
    requires Indexed(r0, o0) && Indexed(r0, closed) && Grown(g, c, r0, o0, closed, r1, o1)
    requires Indexed(r1, closed) && Grown(g, c, r1, o1, closed, r2, o2)
    ensures Grown(g, c, r0, o0, closed, r2, o2)
  {
    GrownNodes(g, c, r0, o0, closed, r1, o1);
    assert o2[..|o0|] == o1[..|o1|][..|o0|];
    forall k | |o0| <= k < |o2| ensures o2[k] == |r0| + (k - |o0|) {
      if k < |o1| {
        assert o2[k] == o2[..|o1|][k];
      }
    }
    forall k | |r0| <= k < |r2| ensures r2[k].node !in NodesOf(r0, o0) + NodesOf(r0, closed) {
      if k >= |r1| {
        assert r2[k].node !in NodesOf(r1, o1);
      }
    }
    forall k, l | |r0| <= k < l < |r2| ensures r2[k].node != r2[l].node {
      if k < |r1| <= l {
        assert r1[k].node in NodesOf(r1, o1) by {
          assert o1[|o0| + (k - |r0|)] == k;
        }
      }
    }
  }

  /** One pass of the `main:` loop: a connection `nb` of the current record's node is
      relaxed in `open` if it has a record there, else in `closed`, and otherwise gets a new
      record, charged `tileValue(nb)`, appended to `open`. */
  method Visit(g: Graph, start: int, end: int, tileValue: int -> real, hermeneutic: (int, int) -> real,
               recs: seq<SearchRecord>, open: seq<nat>, closed: seq<nat>, cur: nat, cValue: real, nb: int,
               ghost stamps: seq<nat>)
    returns (recs': seq<SearchRecord>, open': seq<nat>, ghost stamps': seq<nat>)
    requires Indexed(recs, open) && Indexed(recs, closed) && cur < |recs|
    requires PrevOk(g, start, recs) && nb in Nbrs(g, recs[cur].node)
    ensures Grown(g, recs[cur].node, recs, open, closed, recs', open') && PrevOk(g, start, recs')
    ensures nb in NodesOf(recs', open') + NodesOf(recs, closed)
    ensures NonNegative(tileValue) && cValue >= 0.0 && Ranked(recs, stamps) ==> Ranked(recs', stamps')
  {
    stamps' := stamps;
    var j := FindRecord(recs, open, nb);
    if j >= 0 {
      recs', open' := Relaxed(recs, open[j], cur, cValue), open;
      RelaxedOk(g, start, recs, open[j], cur, cValue);
      if cValue >= 0.0 && Ranked(recs, stamps) {
        stamps' := Restamped(recs, stamps, open[j], cur, cValue);
        RelaxedRanked(recs, stamps, open[j], cur, cValue);
      }
      assert open'[..|open|] == open;
      NodesOfSame(recs, recs', open);
      assert recs'[open[j]].node == nb;
      return;
    }
    var k := FindRecord(recs, closed, nb);
    if k >= 0 {
      recs', open' := Relaxed(recs, closed[k], cur, cValue), open;
      RelaxedOk(g, start, recs, closed[k], cur, cValue);
      if cValue >= 0.0 && Ranked(recs, stamps) {
        stamps' := Restamped(recs, stamps, closed[k], cur, cValue);
        RelaxedRanked(recs, stamps, closed[k], cur, cValue);
      }
      assert open'[..|open|] == open;
      assert recs[closed[k]].node == nb;
      return;
    }
    var added := SearchRecord(nb, cur, recs[cur].pValue + tileValue(nb), hermeneutic(nb, end));
    AddedOk(g, start, recs, added);
    if NonNegative(tileValue) && Ranked(recs, stamps) {
      stamps' := stamps + [stamps[cur] + 1];
      AddedRanked(recs, stamps, added);
    }
    recs' := recs + [added];
    open' := open + [|recs|];
    assert open'[..|open|] == open;
    NodesOfSame(recs, recs', open);
    NodesOfSnoc(recs', open, |recs|);
  }

  /** One more connection visited keeps the loop's invariant. */
  lemma ExpandStep(g: Graph, c: int, closed: seq<nat>, recs: seq<SearchRecord>, open: seq<nat>,
                   r1: seq<SearchRecord>, o1: seq<nat>, r2: seq<SearchRecord>, o2: seq<nat>, nbrs: seq<int>, i: nat)
    requires Indexed(recs, open) && Indexed(recs, closed) && Grown(g, c, recs, open, closed, r1, o1)
    requires i < |nbrs| && forall t :: 0 <= t < i ==> nbrs[t] in NodesOf(r1, o1) + NodesOf(recs, closed)
    requires Indexed(r1, closed) && Grown(g, c, r1, o1, closed, r2, o2)
    requires nbrs[i] in NodesOf(r2, o2) + NodesOf(r1, closed)
    ensures Grown(g, c, recs, open, closed, r2, o2)
    ensures forall t :: 0 <= t < i + 1 ==> nbrs[t] in NodesOf(r2, o2) + NodesOf(recs, closed)
  {
    GrownNodes(g, c, recs, open, closed, r1, o1);
    GrownNodes(g, c, r1, o1, closed, r2, o2);
    GrownTrans(g, c, closed, recs, open, r1, o1, r2, o2);
    ghost var before, after, shut := NodesOf(r1, o1), NodesOf(r2, o2), NodesOf(recs, closed);
    assert before <= after && NodesOf(r1, closed) == shut;
    forall t | 0 <= t < i + 1 ensures nbrs[t] in after + shut {
      if t < i {
        assert nbrs[t] in before + shut;
      }
    }
  }

  /** The `main:` loop over the current record's connections. */
  method Expand(g: Graph, start: int, end: int, tileValue: int -> real, hermeneutic: (int, int) -> real,
                recs: seq<SearchRecord>, open: seq<nat>, closed: seq<nat>, cur: nat, cValue: real,
                ghost stamps: seq<nat>)
    returns (recs': seq<SearchRecord>, open': seq<nat>, ghost stamps': seq<nat>)
    requires Indexed(recs, open) && Indexed(recs, closed) && cur < |recs| && PrevOk(g, start, recs)
    ensures Grown(g, recs[cur].node, recs, open, closed, recs', open') && PrevOk(g, start, recs')
    ensures forall nb :: nb in Nbrs(g, recs[cur].node) ==> nb in NodesOf(recs', open') + NodesOf(recs, closed)
    ensures NonNegative(tileValue) && cValue >= 0.0 && Ranked(recs, stamps) ==> Ranked(recs', stamps')
  {
    var c := recs[cur].node;
    var nbrs := Nbrs(g, c);
    recs', open', stamps' := recs, open, stamps;
    assert open'[..|open|] == open;
    var i := 0;
    while i < |nbrs|
      invariant 0 <= i <= |nbrs|
      invariant Grown(g, c, recs, open, closed, recs', open') && PrevOk(g, start, recs')
      invariant forall t :: 0 <= t < i ==> nbrs[t] in NodesOf(recs', open') + NodesOf(recs, closed)
      invariant NonNegative(tileValue) && cValue >= 0.0 && Ranked(recs, stamps) ==> Ranked(recs', stamps')
    {
      GrownNodes(g, c, recs, open, closed, recs', open');
      ghost var r1, o1 := recs', open';
      recs', open', stamps' := Visit(g, start, end, tileValue, hermeneutic, recs', open', closed, cur, cValue, nbrs[i], stamps');
      ExpandStep(g, c, closed, recs, open, r1, o1, recs', open', nbrs, i);
      i := i + 1;
    }
  }

  /** `this.path = [node.current]; while (node.previous) …unshift`: the walk back along
      `previous` links. A chain longer than the number of records has looped back on itself,
      where the source would never return; that outcome is `Diverged`. */
  method Walk(g: Graph, start: int, recs: seq<SearchRecord>, from: nat, ghost stamps: seq<nat>) returns (r: PathResult)
    requires from < |recs| && PrevOk(g, start, recs)
    ensures r.Found? ==> IsPath(g, r.nodes, start, recs[from].node)
    ensures !r.NoPath?
    ensures recs[from].previous < 0 ==> r == Found([recs[from].node])
    ensures Ranked(recs, stamps) ==> r.Found?
  {
    var node: nat := from;
    var p := [recs[from].node];
    var steps := 0;
    ghost var seen: seq<nat> := [from];
    while recs[node].previous >= 0 && steps < |recs|
      invariant node < |recs|
      invariant |p| >= 1 && p[0] == recs[node].node && p[|p| - 1] == recs[from].node
      invariant forall i :: 0 <= i < |p| - 1 ==> p[i + 1] in Nbrs(g, p[i])
      invariant steps == 0 ==> node == from && p == [recs[from].node]
      invariant steps > 0 ==> recs[from].previous >= 0
      invariant |seen| == steps + 1 && seen[steps] == node
      invariant forall i :: 0 <= i < |seen| ==> seen[i] < |recs|
      invariant Ranked(recs, stamps) ==>
        Seqs.Distinct(seen) && forall i :: 0 <= i < steps ==> Earlier(recs, stamps, node, seen[i])
      decreases |recs| - steps
    {
      assert LinkOk(g, start, recs, node);
      ghost var before := node;
      node := recs[node].previous;
      p := [recs[node].node] + p;
      if Ranked(recs, stamps) {
        assert Earlier(recs, stamps, node, before);
        forall i | 0 <= i < steps ensures Earlier(recs, stamps, node, seen[i]) {
          EarlierTrans(recs, stamps, node, before, seen[i]);
        }
        forall i | 0 <= i < |seen| ensures seen[i] != node {
          assert Earlier(recs, stamps, node, seen[i]);
        }
      }
      seen := seen + [node];
      steps := steps + 1;
    }
    assert LinkOk(g, start, recs, node);
    if Ranked(recs, stamps) {
      DistinctIndices(seen, |recs|);
    }
    if recs[node].previous >= 0 {
      r := Diverged;
    } else {
      r := Found(p);
    }
  }

  /** The nodes of the records a list refers to, in list order. */
  function NodeList(recs: seq<SearchRecord>, s: seq<nat>): (r: seq<int>)
    requires Indexed(recs, s)
    ensures |r| == |s| && forall k :: 0 <= k < |s| ==> r[k] == recs[s[k]].node
  {
    seq(|s|, k requires 0 <= k < |s| => recs[s[k]].node)
  }

  /** The outcome of `makePath`: the path, `null` once the open list runs dry, or a walk
      back that never ends. */
  datatype PathResult = Found(nodes: seq<int>) | NoPath | Diverged

  /** Distinct elements of a set are at most as many as the set has. */
  lemma {:induction false} DistinctBound(s: seq<int>, u: set<int>)
    requires Seqs.Distinct(s) && forall k :: 0 <= k < |s| ==> s[k] in u
    ensures |s| <= |u|
  {
    if |s| > 0 {
      var last := s[|s| - 1];
      DistinctBound(s[..|s| - 1], u - {last});
    }
  }

  /** The indices below `n`. */
  ghost function Below(n: nat): (r: set<int>)
    ensures |r| == n && forall k :: k in r <==> 0 <= k < n
  {
    if n == 0 then {} else Below(n - 1) + {n - 1}
  }

  /** Distinct indices below `n` are at most `n` many. */
  lemma DistinctIndices(s: seq<nat>, n: nat)
    requires Seqs.Distinct(s) && forall i :: 0 <= i < |s| ==> s[i] < n
    ensures |s| <= n
  {
    DistinctBound(s, Below(n));
  }

  /** Every connection of a closed node has a record on one of the lists. */
  predicate Covered(g: Graph, recs: seq<SearchRecord>, open: seq<nat>, shut: seq<nat>)
    requires Indexed(recs, open) && Indexed(recs, shut)
  {
    forall n, m :: n in NodesOf(recs, shut) && m in Nbrs(g, n) ==> m in NodesOf(recs, open) + NodesOf(recs, shut)
  }

  /** The invariant of the `while (this.open.length)` loop: records are well linked and name
      nodes of the graph, every connection of a closed node has a record on one of the
      lists, the start has one, and the end is not closed. With no node
      connected to itself, no node has two records on the lists. Stated as one equation so
      that the loop carries it as a single fact rather than one proof goal per conjunct. */
  predicate Searching(g: Graph, start: int, end: int, u: set<int>,
                      recs: seq<SearchRecord>, open: seq<nat>, shut: seq<nat>)
  {
    (Indexed(recs, open) && Indexed(recs, shut) && PrevOk(g, start, recs)
    && (forall k :: 0 <= k < |recs| ==> recs[k].node in u)
    && Covered(g, recs, open, shut)
    && start in NodesOf(recs, open) + NodesOf(recs, shut)
    && end !in NodesOf(recs, shut)
    && (NoSelfLoops(g) ==>
          && DistinctNodes(recs, open) && DistinctNodes(recs, shut)
          && Apart(recs, open, shut))) == true
  }

  /** The nodes named by the lists after closing `cur` and expanding it: the closed list gains
      `cur`'s node, and no node named before is lost. */
  lemma StepNodes(g: Graph, recs: seq<SearchRecord>, full: seq<nat>, shut: seq<nat>,
                  recs': seq<SearchRecord>, openE: seq<nat>)
    requires |full| > 0 && Indexed(recs, full) && Indexed(recs, full[1..]) && Indexed(recs, shut)
    requires Grown(g, recs[full[0]].node, recs, full[1..], shut, recs', openE)
    ensures Indexed(recs', openE) && Indexed(recs', shut + [full[0]])
    ensures NodesOf(recs', SortByScore(recs', openE)) == NodesOf(recs', openE)
    ensures NodesOf(recs', shut + [full[0]]) == NodesOf(recs, shut) + {recs[full[0]].node}
    ensures NodesOf(recs, full) + NodesOf(recs, shut) <= NodesOf(recs', openE) + NodesOf(recs', shut + [full[0]])
  {
    var cur, open := full[0], full[1..];
    var c, S := recs[cur].node, NodesOf(recs, shut);
    assert NodesOf(recs, full) == {c} + NodesOf(recs, open) by {
      assert full == [cur] + open;
      NodesOfCons(recs, cur, open);
    }
    assert NodesOf(recs, open) <= NodesOf(recs', openE) by {
      GrownNodes(g, c, recs, open, shut, recs', openE);
    }
    assert Indexed(recs', shut + [cur]) && NodesOf(recs', shut + [cur]) == S + {c} by {
      NodesOfSame(recs, recs', shut);
      NodesOfSnoc(recs', shut, cur);
    }
    NodesOfPermutation(recs', openE, SortByScore(recs', openE));
  }

  /** Closing the first open record `cur` (not the end), expanding it and sorting keeps the
      invariant. */
  lemma SearchStep(g: Graph, start: int, end: int, u: set<int>, recs: seq<SearchRecord>,
                   full: seq<nat>, shut: seq<nat>, recs': seq<SearchRecord>, openE: seq<nat>)
    requires u == Universe(g, start) && Searching(g, start, end, u, recs, full, shut)
    requires |full| > 0 && recs[full[0]].node != end && Indexed(recs, full[1..])
    requires Grown(g, recs[full[0]].node, recs, full[1..], shut, recs', openE) && PrevOk(g, start, recs')
    requires forall nb :: nb in Nbrs(g, recs[full[0]].node) ==> nb in NodesOf(recs', openE) + NodesOf(recs, shut)
    ensures Indexed(recs', openE)
    ensures Searching(g, start, end, u, recs', SortByScore(recs', openE), shut + [full[0]])
    ensures var before, after := |u - NodesOf(recs, shut)|, |u - NodesOf(recs', shut + [full[0]])|;
      after < before || (after == before && |SortByScore(recs', openE)| < |full|)
  {
    SearchDecreases(g, u, recs, full, shut, recs', openE);
    StepNodes(g, recs, full, shut, recs', openE);
    var c := recs[full[0]].node;
    var open' := SortByScore(recs', openE);
    var S, O', S' := NodesOf(recs, shut), NodesOf(recs', open'), NodesOf(recs', shut + [full[0]]);
    assert forall k :: 0 <= k < |recs'| ==> recs'[k].node in u by {
      forall k | 0 <= k < |recs'| ensures recs'[k].node in u {
        if k >= |recs| {
          NbrInUniverse(g, start, c, recs'[k].node);
        }
      }
    }
    assert Covered(g, recs', open', shut + [full[0]]) by {
      forall n, m | n in S' && m in Nbrs(g, n) ensures m in O' + S' {
        if n in S {
          assert m in NodesOf(recs, full) + S;
        }
      }
    }
    if NoSelfLoops(g) {
      KeepsApart(g, recs, full, shut, recs', openE);
    }
  }

  /** With no node connected to itself, closing `cur` and expanding it keeps every node on at
      most one record of the two lists. */
  lemma KeepsApart(g: Graph, recs: seq<SearchRecord>, full: seq<nat>, shut: seq<nat>,
                   recs': seq<SearchRecord>, openE: seq<nat>)
    requires NoSelfLoops(g) && |full| > 0 && Indexed(recs, full) && Indexed(recs, full[1..]) && Indexed(recs, shut)
    requires DistinctNodes(recs, full) && DistinctNodes(recs, shut) && Apart(recs, full, shut)
    requires Grown(g, recs[full[0]].node, recs, full[1..], shut, recs', openE)
    ensures Indexed(recs', openE) && Indexed(recs', shut + [full[0]])
    ensures var open' := SortByScore(recs', openE);
      DistinctNodes(recs', open') && DistinctNodes(recs', shut + [full[0]]) && Apart(recs', open', shut + [full[0]])
  {
    var cur, open := full[0], full[1..];
    var c := recs[cur].node;
    var open' := SortByScore(recs', openE);
    var O, S := NodesOf(recs, open), NodesOf(recs, shut);
    assert c !in O && DistinctNodes(recs, open) && O !! S && c !in S by {
      assert full == [cur] + open;
      NodesOfCons(recs, cur, open);
      ApartIsDisjoint(recs, full, shut);
    }
    GrownNodes(g, c, recs, open, shut, recs', openE);
    assert DistinctNodes(recs', open') by {
      SortKeepsDistinct(recs', openE);
    }
    assert DistinctNodes(recs', shut + [cur]) && NodesOf(recs', shut + [cur]) == S + {c} by {
      NodesOfSame(recs, recs', shut);
      NodesOfSnoc(recs', shut, cur);
    }
    assert Apart(recs', open', shut + [cur]) by {
      NodesOfPermutation(recs', openE, open');
      assert c !in Nbrs(g, c);
      ApartIsDisjoint(recs', open', shut + [cur]);
    }
  }

  /** The loop's measure: either one more node of the universe is closed, or the open list
      shrinks because every connection of the re-closed node already has a record. */
  lemma SearchDecreases(g: Graph, u: set<int>, recs: seq<SearchRecord>,
                        full: seq<nat>, shut: seq<nat>, recs': seq<SearchRecord>, openE: seq<nat>)
    requires |full| > 0 && Indexed(recs, full) && Indexed(recs, full[1..]) && Indexed(recs, shut)
    requires recs[full[0]].node in u && Covered(g, recs, full, shut)
    requires Grown(g, recs[full[0]].node, recs, full[1..], shut, recs', openE)
    ensures Indexed(recs', shut + [full[0]]) && Indexed(recs', openE)
    ensures var before, after := |u - NodesOf(recs, shut)|, |u - NodesOf(recs', shut + [full[0]])|;
      after < before || (after == before && |SortByScore(recs', openE)| < |full|)
  {
    var cur, open := full[0], full[1..];
    var c, S := recs[cur].node, NodesOf(recs, shut);
    StepNodes(g, recs, full, shut, recs', openE);
    assert |SortByScore(recs', openE)| == |openE| by {
      NodesOfPermutation(recs', openE, SortByScore(recs', openE));
    }
    if c in S {
      assert |openE| == |open| by {
        var O := NodesOf(recs, open);
        assert NodesOf(recs, full) == {c} + O by {
          assert full == [cur] + open;
          NodesOfCons(recs, cur, open);
        }
        forall n | n in Nbrs(g, c) ensures n in O + S {
          assert n in NodesOf(recs, full) + S;
        }
        GrownNodes(g, c, recs, open, shut, recs', openE);
      }
      assert S + {c} == S;
    } else {
      var A := u - S;
      assert c in A;
      assert u - (S + {c}) == A - {c};
      assert A == (A - {c}) + {c};
    }
  }

  /** When the open list runs dry, the closed nodes hold the start, not the end, and every
      connection of theirs: no path joins the two. */
  lemma Exhausted(g: Graph, start: int, end: int, recs: seq<SearchRecord>, open: seq<nat>, shut: seq<nat>)
    requires open == [] && Indexed(recs, shut) && Covered(g, recs, open, shut)
    requires start in NodesOf(recs, open) + NodesOf(recs, shut) && end !in NodesOf(recs, shut)
    ensures forall p :: !IsPath(g, p, start, end)
  {
    assert NodesOf(recs, open) == {};
    NoWayOut(g, NodesOf(recs, shut), start, end);
  }

  /** With no node connected to itself, the closed list names each node once, so it never
      holds more nodes than the graph can reach. */
  lemma ClosedBound(g: Graph, u: set<int>, recs: seq<SearchRecord>, shut: seq<nat>)
    requires Indexed(recs, shut) && forall k :: 0 <= k < |recs| ==> recs[k].node in u
    requires NoSelfLoops(g) ==> DistinctNodes(recs, shut)
    ensures NoSelfLoops(g) ==> Seqs.Distinct(NodeList(recs, shut)) && |NodeList(recs, shut)| <= |u|
  {
    if NoSelfLoops(g) {
      var closed := NodeList(recs, shut);
      forall a, b | 0 <= a < b < |closed| ensures closed[a] != closed[b] {
        assert NodeAt(recs, shut, a) != NodeAt(recs, shut, b);
      }
      DistinctBound(closed, u);
    }
  }

  /** The lists as `makePath` sets them up: one record for the start, open. */
  lemma SearchStarts(g: Graph, start: int, end: int, u: set<int>, recs: seq<SearchRecord>)
    requires u == Universe(g, start) && |recs| == 1 && recs[0].node == start && recs[0].previous < 0
    ensures Searching(g, start, end, u, recs, [0], [])
  {
    NodesOfCons(recs, 0, []);
    assert [0] == [0] + [];
    assert LinkOk(g, start, recs, 0);
  }

  /** One pass of the loop on an open record that is not the end: close it, expand its
      connections and sort the open list. */
  method Advance(g: Graph, start: int, end: int, ghost u: set<int>,
                 tileValue: int -> real, hermeneutic: (int, int) -> real,
                 recs: seq<SearchRecord>, open: seq<nat>, shut: seq<nat>, ghost stamps: seq<nat>)
    returns (recs': seq<SearchRecord>, open': seq<nat>, shut': seq<nat>, ghost stamps': seq<nat>)
    requires u == Universe(g, start) && Searching(g, start, end, u, recs, open, shut)
    requires |open| > 0 && recs[open[0]].node != end
    ensures Searching(g, start, end, u, recs', open', shut')
    ensures shut' == shut + [open[0]]
    ensures SortedByScore(recs', open')
    ensures var before, after := |u - NodesOf(recs, shut)|, |u - NodesOf(recs', shut')|;
      after < before || (after == before && |open'| < |open|)
    ensures NonNegative(tileValue) && Ranked(recs, stamps) ==> Ranked(recs', stamps')
  {
    var cur, rest := open[0], open[1..];
    var cValue := tileValue(recs[cur].node);
    var openE;
    recs', openE, stamps' := Expand(g, start, end, tileValue, hermeneutic, recs, rest, shut, cur, cValue, stamps);
    SearchStep(g, start, end, u, recs, open, shut, recs', openE);
    open', shut' := SortByScore(recs', openE), shut + [cur];
    SortSorted(recs', openE);
  }

  /** The body of `makePath`: the search from `start` to `end`, with the nodes of the
      records it closed, in the order it closed them. */
  method Search(g: Graph, start: int, end: int, tileValue: int -> real, hermeneutic: (int, int) -> real)
    returns (r: PathResult, closed: seq<int>)
    ensures start == end ==> r == Found([start])
    ensures r.Found? ==> IsPath(g, r.nodes, start, end)
    ensures r.NoPath? ==> forall p :: !IsPath(g, p, start, end)
    ensures NoSelfLoops(g) ==> Seqs.Distinct(closed) && |closed| <= |Universe(g, start)|
    ensures NonNegative(tileValue) ==> !r.Diverged?
    ensures NonNegative(tileValue) && (exists p :: IsPath(g, p, start, end)) ==> r.Found?
  {
    ghost var u := Universe(g, start);
    var recs := [SearchRecord(start, -1, 0.0, hermeneutic(start, end))];
    var open: seq<nat> := [0];
    var shut: seq<nat> := [];
    ghost var stamps: seq<nat> := [0];
    SearchStarts(g, start, end, u, recs);
    while |open| > 0
      invariant Searching(g, start, end, u, recs, open, shut)
      invariant start == end ==> open == [0] && recs[0] == SearchRecord(start, -1, 0.0, hermeneutic(start, end))
      invariant |shut| > 0 ==> SortedByScore(recs, open)
      invariant NonNegative(tileValue) ==> Ranked(recs, stamps)
      decreases |u - NodesOf(recs, shut)|, |open|
    {
      var cur := open[0];
      if recs[cur].node == end {
        r := Walk(g, start, recs, cur, stamps);
        closed := NodeList(recs, shut);
        ClosedBound(g, u, recs, shut);
        return;
      }
      recs, open, shut, stamps := Advance(g, start, end, u, tileValue, hermeneutic, recs, open, shut, stamps);
    }
    r, closed := NoPath, NodeList(recs, shut);
    Exhausted(g, start, end, recs, open, shut);
    ClosedBound(g, u, recs, shut);
  }

  class AStarPath {
    const graph: Graph
    const tileValue: int -> real
    const hermeneutic: (int, int) -> real
    var path: PathResult
    /** The nodes of the records on the closed list, in the order they were closed. */
    var closed: seq<int>

    /** `new AStarPath(start, end, tileValue, hermeneutic)`: a missing `tileValue` charges 1
        per node and a missing heuristic guesses 0; the path is made at once. */
    constructor(g: Graph, start: int, end: int,
                tile: Seqs.Option<int -> real> := Seqs.None,
                guess: Seqs.Option<(int, int) -> real> := Seqs.None)
      ensures graph == g
      ensures tile.Some? ==> tileValue == tile.value
      ensures tile.None? ==> forall n :: tileValue(n) == 1.0
      ensures guess.Some? ==> hermeneutic == guess.value
      ensures guess.None? ==> forall n, e :: hermeneutic(n, e) == 0.0
      ensures start == end ==> path == Found([start])
      ensures path.Found? ==> IsPath(g, path.nodes, start, end)
      ensures path.NoPath? ==> forall p :: !IsPath(g, p, start, end)
      ensures (tile.Some? ==> NonNegative(tile.value)) ==> !path.Diverged?
    {
      graph := g;
      var unit: int -> real := (n: int) => 1.0;
      var zero: (int, int) -> real := (n: int, e: int) => 0.0;
      if tile.Some? {
        tileValue := tile.value;
      } else {
        tileValue := unit;
      }
      if guess.Some? {
        hermeneutic := guess.value;
      } else {
        hermeneutic := zero;
      }
      new;
      var _ := MakePath(start, end);
    }

    /** `makePath(start, end)`: the search's outcome is stored in `path`, and its closed
        records in `closed`. */
    method MakePath(start: int, end: int) returns (r: PathResult)
      modifies this`path, this`closed
      ensures r == path
      ensures start == end ==> r == Found([start])
      ensures r.Found? ==> IsPath(graph, r.nodes, start, end)
      ensures r.NoPath? ==> forall p :: !IsPath(graph, p, start, end)
      ensures NoSelfLoops(graph) ==> Seqs.Distinct(closed) && |closed| <= |Universe(graph, start)|
      ensures NonNegative(tileValue) ==> !r.Diverged?
    {
      r, closed := Search(graph, start, end, tileValue, hermeneutic);
      path := r;
    }
  }
}
