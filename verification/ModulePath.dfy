/** Shortest dependency path between two modules, `find_module_path` (tools/audit_direct_includes.py). */
module ModulePath {
  import opened Prelude

  type Graph = map<string, set<string>>

  predicate Edge(g: Graph, u: string, v: string) { u in g && v in g[u] }

  /** A non-empty list of modules from start to end in which each one depends on the next. */
  ghost predicate IsPath(g: Graph, p: seq<string>, start: string, end: string) {
    && p != [] && p[0] == start && p[|p| - 1] == end
    && forall i :: 0 <= i < |p| - 1 ==> Edge(g, p[i], p[i + 1])
  }

  ghost predicate Reachable(g: Graph, start: string, end: string) {
    exists p :: IsPath(g, p, start, end)
  }

  ghost predicate IsShortestPath(g: Graph, p: seq<string>, start: string, end: string) {
    IsPath(g, p, start, end) && forall q :: IsPath(g, q, start, end) ==> |p| <= |q|
  }

  // ---- What the search knows ----

  /** The search variables as a value; `dist`, which the code does not keep, records how many edges the predecessor chain of a module has. */
  datatype Search = Search(
    start: string, visited: set<string>, worklist: seq<string>,
    pred: map<string, Option<string>>, dist: map<string, nat>)

  /** Every discovered module other than the start was discovered from a visited one, one edge closer. */
  ghost predicate PredOk(g: Graph, s: Search) {
    && s.pred.Keys == s.dist.Keys
    && s.start in s.pred && s.pred[s.start] == None && s.dist[s.start] == 0
    && forall v :: v in s.pred && v != s.start ==> FoundFrom(g, s, v)
  }

  ghost predicate FoundFrom(g: Graph, s: Search, v: string)
    requires v in s.pred && s.pred.Keys == s.dist.Keys
  {
    && s.pred[v].Some? && s.pred[v].value in s.visited && s.pred[v].value in s.dist
    && Edge(g, s.pred[v].value, v)
    && s.dist[v] == s.dist[s.pred[v].value] + 1
  }

  /** Position j of the worklist will be expanded when it is popped: not visited, no earlier copy. */
  ghost predicate Fresh(s: Search, j: nat)
    requires j < |s.worklist|
  {
    s.worklist[j] !in s.visited && s.worklist[j] !in s.worklist[..j]
  }

  ghost predicate Known(s: Search) {
    && (forall i :: 0 <= i < |s.worklist| ==> s.worklist[i] in s.dist)
    && s.visited <= s.dist.Keys
    && (forall v :: v in s.dist && v !in s.visited ==> v in s.worklist)
  }

  ghost predicate Sorted(s: Search)
    requires Known(s)
  {
    forall i, j :: 0 <= i < j < |s.worklist| && Fresh(s, j) ==> s.dist[s.worklist[i]] <= s.dist[s.worklist[j]]
  }

  ghost predicate TwoLevels(s: Search)
    requires Known(s)
  {
    forall i, j :: 0 <= i < |s.worklist| && 0 <= j < |s.worklist| && Fresh(s, j) ==>
      s.dist[s.worklist[i]] <= s.dist[s.worklist[j]] + 1
  }

  ghost predicate VisitedBehind(s: Search)
    requires Known(s)
  {
    forall u, j :: u in s.visited && 0 <= j < |s.worklist| && Fresh(s, j) ==> s.dist[u] <= s.dist[s.worklist[j]]
  }

  /** Copies may be queued out of order, but what will be expanded is ordered by distance and spans at most
      two levels, and nothing visited is farther. */
  ghost predicate QueueOk(s: Search) {
    Known(s) && Sorted(s) && TwoLevels(s) && VisitedBehind(s)
  }

  /** Modules reached from a visited one are known, and not farther than one more edge. */
  ghost predicate Closed(g: Graph, s: Search, done: set<string>) {
    forall u, v :: u in done && Edge(g, u, v) ==> u in s.dist && v in s.dist && s.dist[v] <= s.dist[u] + 1
  }

  /** Along any path, the first module not yet visited is known at no more than its position. */
  lemma {:induction false} PathMeetsFrontier(g: Graph, s: Search, p: seq<string>, end: string, k: nat)
    requires PredOk(g, s) && QueueOk(s) && Closed(g, s, s.visited)
    requires IsPath(g, p, s.start, end) && k < |p|
    requires forall i :: 0 <= i < k ==> p[i] in s.visited
    ensures p[k] in s.dist && s.dist[p[k]] <= k
    decreases k
  {
    if k > 0 {
      PathMeetsFrontier(g, s, p, end, k - 1);
      assert Edge(g, p[k - 1], p[k]);
    }
  }

  lemma FirstCopyIsFresh(s: Search, v: string) returns (i: nat)
    requires v in s.worklist && v !in s.visited
    ensures i < |s.worklist| && s.worklist[i] == v && Fresh(s, i)
  {
    i := 0;
    while s.worklist[i] != v
      invariant 0 <= i < |s.worklist|
      invariant v !in s.worklist[..i]
      decreases |s.worklist| - i
    {
      i := i + 1;
    }
  }

  /** A path to a module that is not visited passes the frontier, so the worklist is not empty and a head
      that is still to be expanded is no farther than the path is long. */
  lemma FrontierBoundsPaths(g: Graph, s: Search, p: seq<string>, end: string)
    requires PredOk(g, s) && QueueOk(s) && Closed(g, s, s.visited)
    requires IsPath(g, p, s.start, end) && end !in s.visited
    ensures s.worklist != []
    ensures s.worklist[0] !in s.visited ==> s.dist[s.worklist[0]] <= |p| - 1
  {
    hide Edge, QueueOk;
    var k := 0;
    while p[k] in s.visited
      invariant 0 <= k < |p|
      invariant forall i :: 0 <= i < k ==> p[i] in s.visited
      decreases |p| - k
    {
      k := k + 1;
    }
    PathMeetsFrontier(g, s, p, end, k);
    assert Known(s) by { QueueIsKnown(s); }
    var i := FirstCopyIsFresh(s, p[k]);
    HeadIsNearest(s, i);
  }

  lemma QueueIsKnown(s: Search)
    requires QueueOk(s)
    ensures Known(s)
  {}

  lemma HeadIsNearest(s: Search, i: nat)
    requires QueueOk(s) && i < |s.worklist| && Fresh(s, i)
    ensures s.dist[s.worklist[0]] <= s.dist[s.worklist[i]]
  {}

  /** The chain of predecessors, from the start to `v`. */
  ghost function Chain(g: Graph, s: Search, v: string): seq<string>
    requires PredOk(g, s) && v in s.pred
    decreases s.dist[v]
  {
    if v == s.start then [v] else Chain(g, s, s.pred[v].value) + [v]
  }

  lemma {:induction false} ChainIsPath(g: Graph, s: Search, v: string)
    requires PredOk(g, s) && v in s.pred
    ensures IsPath(g, Chain(g, s, v), s.start, v)
    ensures |Chain(g, s, v)| == s.dist[v] + 1
    decreases s.dist[v]
  {
    if v != s.start {
      ChainIsPath(g, s, s.pred[v].value);
    }
  }

  // ---- Popping and expanding ----

  function Pop(s: Search): Search
    requires s.worklist != []
  {
    s.(worklist := s.worklist[1..])
  }

  function Visit(s: Search): Search
    requires s.worklist != []
  {
    s.(worklist := s.worklist[1..], visited := s.visited + {s.worklist[0]})
  }

  /** What is kept while the successors of the visited module c are queued. */
  ghost predicate Expanding(s: Search, c: string) {
    && Known(s) && c in s.visited
    && Sorted(s)
    && Within(s, c)
    && (forall u :: u in s.visited ==> s.dist[u] <= s.dist[c])
  }

  ghost predicate Within(s: Search, c: string)
    requires Known(s) && c in s.dist
  {
    && (forall i :: 0 <= i < |s.worklist| ==> s.dist[s.worklist[i]] <= s.dist[c] + 1)
    && (forall j :: 0 <= j < |s.worklist| && Fresh(s, j) ==> s.dist[c] <= s.dist[s.worklist[j]])
  }

  /** Removing the head, visited before or now, uncovers no copy: what is fresh afterwards was fresh before. */
  lemma FreshBeforePop(s: Search, s': Search, j: nat)
    requires s.worklist != [] && s'.worklist == s.worklist[1..]
    requires s.visited <= s'.visited && s.worklist[0] in s'.visited
    requires j < |s'.worklist| && Fresh(s', j)
    ensures Fresh(s, j + 1) && s'.worklist[j] == s.worklist[j + 1]
  {
    assert s.worklist[..j + 1] == [s.worklist[0]] + s'.worklist[..j];
  }

  lemma KnownAfterPop(s: Search, s': Search)
    requires Known(s) && s.worklist != [] && s'.worklist == s.worklist[1..] && s'.dist == s.dist
    requires s'.visited == s.visited + {s.worklist[0]}
    ensures Known(s')
  {
    assert forall v :: v in s.worklist && v != s.worklist[0] ==> v in s'.worklist;
  }

  lemma SortedAfterPop(s: Search, s': Search)
    requires Known(s) && Sorted(s) && s.worklist != [] && s'.worklist == s.worklist[1..] && s'.dist == s.dist
    requires s'.visited == s.visited + {s.worklist[0]} && Known(s')
    ensures Sorted(s')
  {
    hide Fresh;
    forall i, j | 0 <= i < j < |s'.worklist| && Fresh(s', j)
      ensures s.dist[s'.worklist[i]] <= s.dist[s'.worklist[j]]
    {
      FreshBeforePop(s, s', j);
      assert s'.worklist[i] == s.worklist[i + 1];
    }
  }

  lemma PopStale(g: Graph, s: Search)
    requires PredOk(g, s) && QueueOk(s) && s.worklist != [] && s.worklist[0] in s.visited
    ensures PredOk(g, Pop(s)) && QueueOk(Pop(s))
  {
    hide Fresh, Edge, Sorted;
    var s' := Pop(s);
    assert s.visited + {s.worklist[0]} == s.visited;
    KnownAfterPop(s, s');
    SortedAfterPop(s, s');
    forall j | 0 <= j < |s'.worklist| && Fresh(s', j)
      ensures Fresh(s, j + 1) && s'.worklist[j] == s.worklist[j + 1]
    {
      FreshBeforePop(s, s', j);
    }
    assert TwoLevels(s') by {
      assert forall i :: 0 <= i < |s'.worklist| ==> s'.worklist[i] == s.worklist[i + 1];
    }
    assert PredOk(g, s') by { PredIgnoresQueue(g, s, s'); }
  }

  lemma PredIgnoresQueue(g: Graph, s: Search, s': Search)
    requires PredOk(g, s) && s.visited <= s'.visited
    requires s'.start == s.start && s'.pred == s.pred && s'.dist == s.dist
    ensures PredOk(g, s')
  {
    hide Edge;
  }

  lemma HeadIsFresh(s: Search)
    requires s.worklist != [] && s.worklist[0] !in s.visited
    ensures Fresh(s, 0)
  {}

  /** Everything queued behind a fresh head is at most one level farther, and what is fresh is not nearer. */
  lemma VisitWithin(s: Search)
    requires QueueOk(s) && s.worklist != [] && s.worklist[0] !in s.visited
    ensures Known(Visit(s)) && Within(Visit(s), s.worklist[0])
  {
    hide Fresh, Sorted, VisitedBehind, QueueOk, Known;
    var s' := Visit(s);
    QueueIsKnown(s);
    KnownAfterPop(s, s');
    forall j | 0 <= j < |s'.worklist| && Fresh(s', j)
      ensures s.dist[s.worklist[0]] <= s.dist[s'.worklist[j]]
    {
      FreshBeforePop(s, s', j);
      HeadIsNearest(s, j + 1);
    }
    forall i | 0 <= i < |s'.worklist| ensures s.dist[s'.worklist[i]] <= s.dist[s.worklist[0]] + 1 {
      QueuedIsNear(s, i + 1);
    }
    HeadIsKnownAfter(s);
  }

  lemma QueuedIsNear(s: Search, i: nat)
    requires QueueOk(s) && s.worklist != [] && s.worklist[0] !in s.visited && i < |s.worklist|
    ensures s.dist[s.worklist[i]] <= s.dist[s.worklist[0]] + 1
  {
    HeadIsFresh(s);
    hide Fresh;
  }

  lemma HeadIsKnownAfter(s: Search)
    requires Known(s) && s.worklist != []
    ensures s.worklist[0] in Visit(s).dist
    ensures forall i :: 0 <= i < |Visit(s).worklist| ==> Visit(s).worklist[i] in s.dist
  {}

  lemma VisitedAreNearer(s: Search, u: string)
    requires QueueOk(s) && s.worklist != [] && s.worklist[0] !in s.visited && u in s.visited
    ensures s.dist[u] <= s.dist[s.worklist[0]]
  {
    HeadIsFresh(s);
    hide Fresh, Sorted, TwoLevels;
  }

  lemma VisitHead(g: Graph, s: Search)
    requires PredOk(g, s) && QueueOk(s) && s.worklist != [] && s.worklist[0] !in s.visited
    ensures PredOk(g, Visit(s)) && Expanding(Visit(s), s.worklist[0])
  {
    hide Edge, PredOk, Sorted, Within, Known, QueueOk;
    var s', c := Visit(s), s.worklist[0];
    PredIgnoresQueue(g, s, s');
    VisitWithin(s);
    QueueIsKnown(s);
    HeadIsKnownAfter(s);
    SortedAfterVisit(s);
    forall u | u in s'.visited ensures u in s.dist && s.dist[u] <= s.dist[c] {
      if u != c {
        VisitedIsKnown(s, u);
        VisitedAreNearer(s, u);
      }
    }
  }

  lemma VisitedIsKnown(s: Search, u: string)
    requires Known(s) && u in s.visited
    ensures u in s.dist
  {}

  lemma SortedAfterVisit(s: Search)
    requires QueueOk(s) && s.worklist != [] && Known(Visit(s))
    ensures Sorted(Visit(s))
  {
    hide Sorted, TwoLevels, VisitedBehind;
    SortedAfterPop(s, Visit(s));
  }

  /** The body of the `for` loop over the dependencies of c. */
  function Enqueue(s: Search, c: string, v: string): Search
    requires c in s.dist
  {
    if v in s.visited then s
    else if v in s.pred then s.(worklist := s.worklist + [v])
    else s.(worklist := s.worklist + [v], pred := s.pred[v := Some(c)], dist := s.dist[v := s.dist[c] + 1])
  }

  lemma KeysAfterUpdate<V, W>(m: map<string, V>, n: map<string, W>, k: string, v: V, w: W)
    requires m.Keys == n.Keys
    ensures m[k := v].Keys == n[k := w].Keys
  {}

  lemma DiscoverKeepsPred(g: Graph, s: Search, s': Search, c: string, v: string)
    requires PredOk(g, s) && c in s.visited && c in s.dist && Edge(g, c, v) && v !in s.pred
    requires s' == s.(worklist := s'.worklist, pred := s.pred[v := Some(c)], dist := s.dist[v := s.dist[c] + 1])
    ensures PredOk(g, s')
  {
    hide Edge;
    KeysAfterUpdate(s.pred, s.dist, v, Some(c), s.dist[c] + 1);
    forall x | x in s'.pred && x != s'.start ensures FoundFrom(g, s', x) {
      if x != v {
        assert FoundFrom(g, s, x);
      }
    }
  }

  lemma EnqueueKeepsPred(g: Graph, s: Search, c: string, v: string)
    requires PredOk(g, s) && c in s.visited && c in s.dist && Edge(g, c, v)
    ensures PredOk(g, Enqueue(s, c, v))
  {
    hide Edge, PredOk;
    var s' := Enqueue(s, c, v);
    if v !in s.visited && v !in s.pred {
      DiscoverKeepsPred(g, s, s', c, v);
    } else {
      PredIgnoresQueue(g, s, s');
    }
  }

  lemma EnqueueKeepsDistances(g: Graph, s: Search, c: string, v: string)
    requires PredOk(g, s) && c in s.dist
    ensures forall x :: x in s.dist ==> x in Enqueue(s, c, v).dist && Enqueue(s, c, v).dist[x] == s.dist[x]
  {
    hide Edge, FoundFrom;
  }

  /** A queued copy of a known module is never fresh; older positions are as fresh as before. */
  lemma FreshAfterEnqueue(s: Search, s': Search, v: string, j: nat)
    requires Known(s) && s'.worklist == s.worklist + [v] && s'.visited == s.visited && v !in s.visited
    requires j < |s'.worklist| && Fresh(s', j)
    ensures if j < |s.worklist| then Fresh(s, j) else v !in s.dist
  {
    if j < |s.worklist| {
      assert s'.worklist[..j] == s.worklist[..j];
    } else {
      assert s'.worklist[..j] == s.worklist;
    }
  }

  lemma EnqueueKeepsKnown(g: Graph, s: Search, c: string, v: string)
    requires PredOk(g, s) && Known(s) && c in s.dist
    ensures Known(Enqueue(s, c, v))
  {
    hide Edge;
  }

  lemma EnqueueKeepsOrder(g: Graph, s: Search, c: string, v: string)
    requires PredOk(g, s) && Expanding(s, c)
    ensures Expanding(Enqueue(s, c, v), c)
  {
    if v !in s.visited {
      hide PredOk, Known, Sorted, Within, Enqueued;
      var s' := Enqueue(s, c, v);
      EnqueueIsEnqueued(g, s, c, v);
      EnqueuedIsWithin(s, s', c, v);
      EnqueuedIsSorted(s, s', c, v);
      EnqueuedKeepsVisited(s, s', c, v);
    }
  }

  lemma EnqueuedKeepsVisited(s: Search, s': Search, c: string, v: string)
    requires Enqueued(s, s', c, v) && s'.visited == s.visited && c in s.visited
    requires forall u :: u in s.visited ==> s.dist[u] <= s.dist[c]
    ensures c in s'.dist && forall u :: u in s'.visited ==> s'.dist[u] <= s'.dist[c]
  {
    hide Fresh;
  }

  lemma EnqueueIsEnqueued(g: Graph, s: Search, c: string, v: string)
    requires PredOk(g, s) && Expanding(s, c) && v !in s.visited
    ensures Enqueued(s, Enqueue(s, c, v), c, v)
  {
    hide PredOk, Known, Sorted, Within, Fresh, Enqueue;
    ExpandingKnows(s, c);
    EnqueueKeepsKnown(g, s, c, v);
    EnqueueKeepsDistances(g, s, c, v);
    EnqueueDistance(g, s, c, v);
    EnqueueFreshens(s, c, v);
  }

  lemma EnqueueDistance(g: Graph, s: Search, c: string, v: string)
    requires PredOk(g, s) && Expanding(s, c) && v !in s.visited
    ensures var s' := Enqueue(s, c, v);
            && v in s'.dist && s'.dist[v] <= s.dist[c] + 1 && (v !in s.dist ==> s'.dist[v] == s.dist[c] + 1)
  {
    hide PredOk, Known, Sorted, Within;
    ExpandingKnows(s, c);
    EnqueueCloses(g, s, c, v);
    EnqueueKeepsDistances(g, s, c, v);
    PredHasKeys(g, s);
  }

  lemma EnqueueFreshens(s: Search, c: string, v: string)
    requires Known(s) && c in s.dist && v !in s.visited
    ensures var s' := Enqueue(s, c, v);
            && s'.worklist == s.worklist + [v]
            && forall j :: 0 <= j < |s'.worklist| && Fresh(s', j) ==>
                 if j < |s.worklist| then Fresh(s, j) else v !in s.dist
  {
    hide Known, Fresh;
    var s' := Enqueue(s, c, v);
    forall j | 0 <= j < |s'.worklist| && Fresh(s', j)
      ensures if j < |s.worklist| then Fresh(s, j) else v !in s.dist
    {
      FreshAfterEnqueue(s, s', v, j);
    }
  }

  ghost predicate Enqueued(s: Search, s': Search, c: string, v: string) {
    && Known(s) && Known(s') && c in s.dist && v in s'.dist
    && s'.worklist == s.worklist + [v]
    && (forall x :: x in s.dist ==> x in s'.dist && s'.dist[x] == s.dist[x])
    && s'.dist[v] <= s.dist[c] + 1 && (v !in s.dist ==> s'.dist[v] == s.dist[c] + 1)
    && forall j :: 0 <= j < |s'.worklist| && Fresh(s', j) ==>
         if j < |s.worklist| then Fresh(s, j) else v !in s.dist
  }

  lemma EnqueuedIsWithin(s: Search, s': Search, c: string, v: string)
    requires Enqueued(s, s', c, v) && Within(s, c)
    ensures Within(s', c)
  {
    hide Fresh;
    forall i | 0 <= i < |s'.worklist| ensures s'.dist[s'.worklist[i]] <= s'.dist[c] + 1 {
      if i < |s.worklist| {
        assert s'.worklist[i] == s.worklist[i];
      }
    }
    forall j | 0 <= j < |s'.worklist| && Fresh(s', j) ensures s'.dist[c] <= s'.dist[s'.worklist[j]] {
      if j < |s.worklist| {
        assert s'.worklist[j] == s.worklist[j];
      }
    }
  }

  lemma EnqueuedIsSorted(s: Search, s': Search, c: string, v: string)
    requires Enqueued(s, s', c, v) && Within(s, c) && Sorted(s)
    ensures Sorted(s')
  {
    hide Fresh;
    forall i, j | 0 <= i < j < |s'.worklist| && Fresh(s', j)
      ensures s'.dist[s'.worklist[i]] <= s'.dist[s'.worklist[j]]
    {
      assert s'.worklist[i] == s.worklist[i];
      if j < |s.worklist| {
        assert s'.worklist[j] == s.worklist[j];
      }
    }
  }

  /** The successor just handled is known, at most one edge farther than c. */
  lemma EnqueueCloses(g: Graph, s: Search, c: string, v: string)
    requires PredOk(g, s) && Expanding(s, c)
    ensures var s' := Enqueue(s, c, v); v in s'.dist && c in s'.dist && s'.dist[v] <= s'.dist[c] + 1
  {
    hide Edge, PredOk;
    if v in s.dist && v !in s.visited {
      var i :| 0 <= i < |s.worklist| && s.worklist[i] == v;
    }
    assert PredKeys(g, s) by { PredHasKeys(g, s); }
  }

  ghost predicate PredKeys(g: Graph, s: Search) { s.pred.Keys == s.dist.Keys }

  lemma PredHasKeys(g: Graph, s: Search)
    requires PredOk(g, s)
    ensures PredKeys(g, s)
  {}

  lemma ExpandedQueue(s: Search, c: string)
    requires Expanding(s, c)
    ensures QueueOk(s)
  {
    hide Fresh;
  }

  /** Between two dependencies of c: the search is in order, and `rest` is still to be queued. */
  ghost predicate Midway(g: Graph, s: Search, c: string, all: set<string>, rest: set<string>) {
    && PredOk(g, s) && Expanding(s, c) && Closed(g, s, s.visited - {c})
    && forall v :: v in all && v !in rest ==> NearBy(s, c, v)
  }

  ghost predicate NearBy(s: Search, c: string, v: string) {
    v in s.dist && c in s.dist && s.dist[v] <= s.dist[c] + 1
  }

  lemma MidwayStep(g: Graph, s: Search, c: string, all: set<string>, rest: set<string>, v: string)
    requires Midway(g, s, c, all, rest) && Edge(g, c, v)
    ensures c in s.dist && s.pred.Keys == s.dist.Keys
    ensures Midway(g, Enqueue(s, c, v), c, all, rest - {v})
  {
    hide PredOk, Expanding, Closed, Edge;
    ExpandingKnows(s, c);
    PredHasKeys(g, s);
    var s' := Enqueue(s, c, v);
    EnqueueKeepsPred(g, s, c, v);
    EnqueueKeepsOrder(g, s, c, v);
    EnqueueCloses(g, s, c, v);
    EnqueueKeepsDistances(g, s, c, v);
    ClosedStays(g, s, s', s.visited - {c});
    assert s'.visited == s.visited;
  }

  lemma MidwayEnds(g: Graph, s: Search, c: string, all: set<string>)
    requires Midway(g, s, c, all, {}) && all == (if c in g then g[c] else {})
    ensures PredOk(g, s) && QueueOk(s) && Closed(g, s, s.visited)
  {
    hide PredOk, Expanding, QueueOk;
    ExpandedQueue(s, c);
    forall u, v | u in s.visited && Edge(g, u, v)
      ensures u in s.dist && v in s.dist && s.dist[v] <= s.dist[u] + 1
    {
      if u == c {
        assert NearBy(s, c, v);
      }
    }
  }

  // ---- The loops ----

  /** The inner loop: the dependencies of c in any order. Only the worklist, the predecessor map and the
      distances change. */
  method Expand(g: Graph, c: string, visited: set<string>, worklist: seq<string>,
                pred: map<string, Option<string>>, ghost s: Search)
    returns (worklist': seq<string>, pred': map<string, Option<string>>, ghost dist': map<string, nat>)
    requires s.visited == visited && s.worklist == worklist && s.pred == pred
    requires PredOk(g, s) && Expanding(s, c) && Closed(g, s, visited - {c})
    ensures var s' := s.(worklist := worklist', pred := pred', dist := dist');
            && PredOk(g, s') && QueueOk(s') && Closed(g, s', visited)
            && pred'.Keys <= pred.Keys + (if c in g then g[c] else {})
  {
    worklist', pred', dist' := worklist, pred, s.dist;
    var all := if c in g then g[c] else {};
    var deps := all;
    ghost var now := s;
    assert Midway(g, s, c, all, all);
    hide Closed, PredOk, Expanding, QueueOk, Midway;
    while deps != {}
      invariant deps <= all
      invariant now == s.(worklist := worklist', pred := pred', dist := dist')
      invariant Midway(g, now, c, all, deps)
      invariant pred'.Keys <= pred.Keys + all
      decreases |deps|
    {
      var v :| v in deps;
      MidwayStep(g, now, c, all, deps, v);
      now := Enqueue(now, c, v);
      if v !in visited {
        if v !in pred' {
          pred' := pred'[v := Some(c)];
        }
        worklist' := worklist' + [v];
      }
      dist' := now.dist;
      deps := deps - {v};
    }
    MidwayEnds(g, now, c, all);
  }

  lemma ExpandingKnows(s: Search, c: string)
    requires Expanding(s, c)
    ensures c in s.visited && c in s.dist
  {}

  lemma ClosedStays(g: Graph, s: Search, s': Search, done: set<string>)
    requires Closed(g, s, done)
    requires forall x :: x in s.dist ==> x in s'.dist && s'.dist[x] == s.dist[x]
    ensures Closed(g, s', done)
  {
    hide Edge;
  }

  /** `find_module_path`. On every finite graph, cycles included, and for every order in which the
      dependency sets are walked: a path exists exactly when one is returned, and it is a shortest one. */
  method FindModulePath(g: Graph, start: string, target: string) returns (path: Option<seq<string>>)
    ensures path.None? <==> !Reachable(g, start, target)
    ensures path.Some? ==> IsShortestPath(g, path.value, start, target)
  {
    hide Edge, QueueOk, PredOk, Closed, IsPath;
    if start == target {
      TrivialPath(g, start);
      return Some([start]);
    }
    if start !in g {
      NoPathFromUnlisted(g, start, target);
      return None;
    }
    var visited: set<string> := {};
    var worklist := [start];
    var pred: map<string, Option<string>> := map[start := None];
    ghost var dist: map<string, nat> := map[start := 0];
    ghost var universe := Universe(g, start);
    SearchStarts(g, start);
    while worklist != []
      invariant var s := Search(start, visited, worklist, pred, dist);
                PredOk(g, s) && QueueOk(s) && Closed(g, s, visited)
      invariant target !in visited
      invariant visited <= universe && pred.Keys <= universe
      decreases |universe - visited|, |worklist|
    {
      ghost var s := Search(start, visited, worklist, pred, dist);
      var current := worklist[0];
      if current in visited {
        PopStale(g, s);
        ClosedStays(g, s, Pop(s), visited);
        worklist := worklist[1..];
        continue;
      }
      HeadIsKnown(g, s);
      if current == target {
        ChainIsPath(g, s, current);
        forall q | IsPath(g, q, start, target) ensures dist[target] + 1 <= |q| {
          FrontierBoundsPaths(g, s, q, target);
        }
        var found := BuildPath(g, pred, s, current);
        return Some(found);
      }
      VisitHead(g, s);
      ClosedBefore(g, s, Visit(s));
      ghost var v := visited;
      visited := visited + {current};
      assert visited - {current} == v;
      SetShrinks(universe, v, current);
      SuccessorsInUniverse(g, start, current);
      worklist, pred, dist := Expand(g, current, visited, worklist[1..], pred, Visit(s));
    }
    ghost var s := Search(start, visited, worklist, pred, dist);
    forall q | IsPath(g, q, start, target) ensures false {
      FrontierBoundsPaths(g, s, q, target);
    }
    return None;
  }

  lemma ClosedBefore(g: Graph, s: Search, s': Search)
    requires Closed(g, s, s.visited) && s.dist == s'.dist
    ensures Closed(g, s', s.visited)
  {
    hide Edge;
  }

  lemma SetShrinks(universe: set<string>, v: set<string>, x: string)
    requires x in universe && x !in v
    ensures |universe - (v + {x})| < |universe - v|
  {
    assert universe - v == (universe - (v + {x})) + {x};
  }

  lemma HeadIsKnown(g: Graph, s: Search)
    requires PredOk(g, s) && QueueOk(s) && s.worklist != []
    ensures s.worklist[0] in s.pred && s.worklist[0] in s.dist && s.pred.Keys == s.dist.Keys
  {}

  lemma TrivialPath(g: Graph, m: string)
    ensures IsShortestPath(g, [m], m, m) && Reachable(g, m, m)
  {
    assert IsPath(g, [m], m, m);
  }

  lemma NoPathFromUnlisted(g: Graph, start: string, target: string)
    requires start !in g && start != target
    ensures !Reachable(g, start, target)
  {
    forall p ensures !IsPath(g, p, start, target) {
      if |p| > 1 && p[0] == start {
        assert !Edge(g, p[0], p[1]);
      }
    }
  }

  lemma SearchStarts(g: Graph, start: string)
    ensures var s := Search(start, {}, [start], map[start := None], map[start := 0]);
            PredOk(g, s) && QueueOk(s) && Closed(g, s, {})
  {}

  /** All module names that occur in the graph, and the start. */
  ghost function Universe(g: Graph, start: string): set<string> {
    {start} + g.Keys + set u, v | u in g && v in g[u] :: v
  }

  lemma SuccessorsInUniverse(g: Graph, start: string, c: string)
    ensures (if c in g then g[c] else {}) <= Universe(g, start)
  {}

  /** The walk back through the predecessor map and the reversal of the collected list. */
  method BuildPath(g: Graph, pred: map<string, Option<string>>, ghost s: Search, target: string)
    returns (path: seq<string>)
    requires PredOk(g, s) && s.pred == pred && target in s.pred
    ensures path == Chain(g, s, target)
  {
    var collected := [];
    var walker := Some(target);
    while walker.Some?
      invariant walker.Some? ==> walker.value in s.pred
      invariant Chain(g, s, target) == (if walker.Some? then Chain(g, s, walker.value) else []) + Reverse(collected)
      decreases if walker.Some? then s.dist[walker.value] + 1 else 0
    {
      ReverseAppend(collected, walker.value);
      collected := collected + [walker.value];
      walker := if walker.value in pred then pred[walker.value] else None;
    }
    path := Reverse(collected);
  }
}
