/** Validation of the demo's maze levels (Demo/demo_levels.cpp). */
module Maze {
  import opened Prelude

  /** The tiles in row-major order; a level may carry more characters than width * height. */
  datatype Grid = Grid(tiles: string, width: int, height: int)

  datatype Cell = Cell(x: int, y: int)

  ghost predicate Valid(g: Grid) { g.width > 0 && g.height > 0 && |g.tiles| >= g.width * g.height }

  predicate Inside(g: Grid, c: Cell) { 0 <= c.x < g.width && 0 <= c.y < g.height }

  function Index(g: Grid, c: Cell): int { c.y * g.width + c.x }

  lemma InsideHasIndex(g: Grid, c: Cell)
    requires Valid(g) && Inside(g, c)
    ensures 0 <= Index(g, c) < g.width * g.height
  {
    IndexInRange(g.width, g.height, c.x, c.y);
  }

  lemma SameIndex(g: Grid, c: Cell, d: Cell)
    requires Valid(g) && Inside(g, c) && Inside(g, d) && Index(g, c) == Index(g, d)
    ensures c == d
  {
    IndexIsInjective(g.width, c.x, c.y, d.x, d.y);
  }

  /** `demo_level_tile_at`: everything outside is wall. */
  function TileAt(g: Grid, c: Cell): char
    requires Valid(g)
  {
    if !Inside(g, c) then '1'
    else
      InsideHasIndex(g, c);
      g.tiles[Index(g, c)]
  }

  /** `demo_level_is_wall`. */
  predicate IsWall(g: Grid, c: Cell)
    requires Valid(g)
  {
    if !Inside(g, c) then true
    else
      InsideHasIndex(g, c);
      g.tiles[Index(g, c)] == '1'
  }

  // ---- Routes ----

  predicate Adjacent(c: Cell, d: Cell) {
    || (d.y == c.y && (d.x == c.x + 1 || d.x == c.x - 1))
    || (d.x == c.x && (d.y == c.y + 1 || d.y == c.y - 1))
  }

  predicate Step(g: Grid, c: Cell, d: Cell)
    requires Valid(g)
  {
    Adjacent(c, d) && !IsWall(g, d)
  }

  /** A walk over the four neighbours that enters no wall. */
  ghost predicate IsRoute(g: Grid, p: seq<Cell>, from: Cell, to: Cell)
    requires Valid(g)
  {
    && p != [] && p[0] == from && p[|p| - 1] == to
    && forall i :: 0 <= i < |p| - 1 ==> Step(g, p[i], p[i + 1])
  }

  ghost predicate Reachable(g: Grid, from: Cell, to: Cell)
    requires Valid(g)
  {
    exists p :: IsRoute(g, p, from, to)
  }

  lemma ReachSelf(g: Grid, c: Cell)
    requires Valid(g)
    ensures Reachable(g, c, c)
  {
    assert IsRoute(g, [c], c, c);
  }

  lemma ReachStep(g: Grid, from: Cell, c: Cell, d: Cell)
    requires Valid(g) && Reachable(g, from, c) && Step(g, c, d)
    ensures Reachable(g, from, d)
  {
    hide Step;
    var p :| IsRoute(g, p, from, c);
    assert IsRoute(g, p + [d], from, d);
  }

  // ---- The breadth-first search ----

  /** The queue holds distinct tiles, all reached from the start; `head` of them have been expanded. */
  ghost predicate Searching(g: Grid, start: Cell, queue: seq<Cell>, head: nat)
    requires Valid(g)
  {
    && queue != [] && queue[0] == start && head <= |queue|
    && (forall i :: 0 <= i < |queue| ==> Inside(g, queue[i]))
    && (forall i, j :: 0 <= i < j < |queue| ==> queue[i] != queue[j])
    && (forall i :: 0 <= i < |queue| ==> Reachable(g, start, queue[i]))
    && forall i, d :: 0 <= i < head && Step(g, queue[i], d) ==> d in queue
  }

  ghost function Indices(g: Grid, queue: seq<Cell>): set<int> {
    set i | 0 <= i < |queue| :: Index(g, queue[i])
  }

  ghost function Range(n: nat): (r: set<int>)
    ensures |r| == n && forall k :: k in r <==> 0 <= k < n
  {
    if n == 0 then {} else Range(n - 1) + {n - 1}
  }

  lemma {:induction false} IndicesAreDistinct(g: Grid, queue: seq<Cell>)
    requires Valid(g)
    requires forall i :: 0 <= i < |queue| ==> Inside(g, queue[i])
    requires forall i, j :: 0 <= i < j < |queue| ==> queue[i] != queue[j]
    ensures |Indices(g, queue)| == |queue|
    decreases |queue|
  {
    hide Index, Inside;
    if queue != [] {
      var n := |queue| - 1;
      var front := queue[..n];
      IndicesAreDistinct(g, front);
      var k := Index(g, queue[n]);
      assert Indices(g, queue) == Indices(g, front) + {k} by {
        assert forall i :: 0 <= i < n ==> queue[i] == front[i];
      }
      forall i | 0 <= i < n ensures Index(g, front[i]) != k {
        if Index(g, front[i]) == k {
          SameIndex(g, queue[i], queue[n]);
        }
      }
    } else {
      assert Indices(g, queue) == {};
    }
  }

  /** Distinct tiles of the grid are never more than width * height: the queue arrays cannot overflow. */
  lemma QueueFits(g: Grid, queue: seq<Cell>)
    requires Valid(g)
    requires forall i :: 0 <= i < |queue| ==> Inside(g, queue[i])
    requires forall i, j :: 0 <= i < j < |queue| ==> queue[i] != queue[j]
    ensures |queue| <= g.width * g.height
  {
    IndicesAreDistinct(g, queue);
    var n: nat := g.width * g.height;
    forall i | 0 <= i < |queue| ensures Index(g, queue[i]) in Range(n) {
      InsideHasIndex(g, queue[i]);
    }
    SubsetIsSmaller(Indices(g, queue), Range(n));
  }

  lemma {:induction false} SubsetIsSmaller(a: set<int>, b: set<int>)
    requires a <= b
    ensures |a| <= |b|
  {
    assert b == a + (b - a);
  }

  lemma SearchStarts(g: Grid, start: Cell)
    requires Valid(g) && Inside(g, start)
    ensures Searching(g, start, [start], 0)
  {
    ReachSelf(g, start);
  }

  lemma SearchGrows(g: Grid, start: Cell, queue: seq<Cell>, head: nat, c: Cell, d: Cell)
    requires Valid(g) && Searching(g, start, queue, head)
    requires c in queue && Step(g, c, d) && d !in queue
    ensures Searching(g, start, queue + [d], head)
    ensures |queue| < g.width * g.height
  {
    hide Reachable;
    assert Inside(g, d);
    assert Reachable(g, start, c);
    ReachStep(g, start, c, d);
    hide Inside, Step;
    QueueFits(g, queue + [d]);
  }

  /** With every queued tile expanded, the queue is closed: whatever is not in it cannot be reached. */
  lemma SearchEnds(g: Grid, start: Cell, queue: seq<Cell>, to: Cell)
    requires Valid(g) && Searching(g, start, queue, |queue|) && to !in queue
    ensures !Reachable(g, start, to)
  {
    forall p | IsRoute(g, p, start, to) ensures false {
      RouteStaysInside(g, start, queue, p, to, |p| - 1);
    }
  }

  lemma {:induction false} RouteStaysInside(g: Grid, start: Cell, queue: seq<Cell>, p: seq<Cell>, to: Cell, k: nat)
    requires Valid(g) && Searching(g, start, queue, |queue|) && IsRoute(g, p, start, to) && k < |p|
    ensures p[k] in queue
  {
    hide Step, Reachable, Inside;
    if k > 0 {
      RouteStaysInside(g, start, queue, p, to, k - 1);
      assert Step(g, p[k - 1], p[k]);
    }
  }

  predicate Marked(g: Grid, visited: seq<bool>, c: Cell)
    requires Valid(g) && |visited| == g.width * g.height && Inside(g, c)
  {
    InsideHasIndex(g, c);
    visited[Index(g, c)]
  }

  /** The three arrays of the search show the queue: its coordinates, and its tiles marked as visited. */
  ghost predicate Shows(g: Grid, visited: seq<bool>, qx: seq<int>, qy: seq<int>, queue: seq<Cell>)
    requires Valid(g)
  {
    && |visited| == |qx| == |qy| == g.width * g.height
    && |queue| <= |qx|
    && (forall k :: 0 <= k < |queue| ==> qx[k] == queue[k].x && qy[k] == queue[k].y)
    && forall c :: Inside(g, c) ==> Marked(g, visited, c) == (c in queue)
  }

  lemma MarkedAfter(g: Grid, visited: seq<bool>, d: Cell, c: Cell)
    requires Valid(g) && |visited| == g.width * g.height && Inside(g, c) && Inside(g, d)
    requires 0 <= Index(g, d) < |visited|
    ensures Marked(g, visited[Index(g, d) := true], c) == (Marked(g, visited, c) || c == d)
  {
    hide Index;
    InsideHasIndex(g, c);
    if Index(g, c) == Index(g, d) {
      SameIndex(g, c, d);
    }
  }

  lemma ShowsPush(g: Grid, visited: seq<bool>, qx: seq<int>, qy: seq<int>, queue: seq<Cell>, d: Cell)
    requires Valid(g) && Shows(g, visited, qx, qy, queue) && Inside(g, d) && |queue| < |qx|
    requires 0 <= Index(g, d) < |visited|
    ensures Shows(g, visited[Index(g, d) := true], qx[|queue| := d.x], qy[|queue| := d.y], queue + [d])
  {
    hide Index, Marked;
    var visited' := visited[Index(g, d) := true];
    forall c | Inside(g, c) ensures Marked(g, visited', c) == (c in queue + [d]) {
      MarkedAfter(g, visited, d, c);
    }
  }

  /** One of the four neighbour blocks: mark and queue the tile if it is open and new. */
  method TryNeighbour(g: Grid, visited: array<bool>, qx: array<int>, qy: array<int>, tail: nat, d: Cell,
                      ghost start: Cell, ghost queue: seq<Cell>, ghost head: nat, ghost c: Cell)
    returns (tail': nat, ghost queue': seq<Cell>)
    requires Valid(g) && qx != qy
    requires Shows(g, visited[..], qx[..], qy[..], queue) && tail == |queue|
    requires Searching(g, start, queue, head) && c in queue && Adjacent(c, d)
    modifies visited, qx, qy
    ensures Shows(g, visited[..], qx[..], qy[..], queue') && tail' == |queue'|
    ensures Searching(g, start, queue', head)
    ensures queue <= queue' && (!IsWall(g, d) ==> d in queue')
  {
    tail', queue' := tail, queue;
    if IsWall(g, d) {
      return;
    }
    assert Inside(g, d);
    InsideHasIndex(g, d);
    assert Marked(g, visited[..], d) == visited[Index(g, d)];
    if !visited[Index(g, d)] {
      hide Searching, IsWall;
      SearchGrows(g, start, queue, head, c, d);
      ShowsPush(g, visited[..], qx[..], qy[..], queue, d);
      hide Shows;
      ghost var v, x, y := visited[..], qx[..], qy[..];
      visited[Index(g, d)] := true;
      qx[tail] := d.x;
      qy[tail] := d.y;
      assert visited[..] == v[Index(g, d) := true] && qx[..] == x[tail := d.x] && qy[..] == y[tail := d.y];
      tail', queue' := tail + 1, queue + [d];
    }
  }

  /** All four neighbours of the tile at `head`, in the order right, left, down, up. */
  method ExpandHead(g: Grid, visited: array<bool>, qx: array<int>, qy: array<int>, tail: nat,
                    ghost start: Cell, ghost queue: seq<Cell>, head: nat)
    returns (tail': nat, ghost queue': seq<Cell>)
    requires Valid(g) && qx != qy
    requires Shows(g, visited[..], qx[..], qy[..], queue) && tail == |queue|
    requires Searching(g, start, queue, head) && head < tail
    modifies visited, qx, qy
    ensures Shows(g, visited[..], qx[..], qy[..], queue') && tail' == |queue'|
    ensures Searching(g, start, queue', head + 1)
    ensures queue <= queue'
  {
    ShowsHead(g, visited[..], qx[..], qy[..], queue, head);
    assert queue[head] in queue;
    hide Shows, Searching, IsWall, Valid, Adjacent;
    var x, y := qx[head], qy[head];
    ghost var c := queue[head];
    Neighbours(c);
    tail', queue' := TryNeighbour(g, visited, qx, qy, tail, Cell(x + 1, y), start, queue, head, c);
    tail', queue' := TryNeighbour(g, visited, qx, qy, tail', Cell(x - 1, y), start, queue', head, c);
    tail', queue' := TryNeighbour(g, visited, qx, qy, tail', Cell(x, y + 1), start, queue', head, c);
    tail', queue' := TryNeighbour(g, visited, qx, qy, tail', Cell(x, y - 1), start, queue', head, c);
    AllNeighbours(g, c, queue');
    Expanded(g, start, queue', head, c);
  }

  lemma Neighbours(c: Cell)
    ensures Adjacent(c, Cell(c.x + 1, c.y)) && Adjacent(c, Cell(c.x - 1, c.y))
    ensures Adjacent(c, Cell(c.x, c.y + 1)) && Adjacent(c, Cell(c.x, c.y - 1))
  {}

  lemma AllNeighbours(g: Grid, c: Cell, queue: seq<Cell>)
    requires Valid(g)
    requires !IsWall(g, Cell(c.x + 1, c.y)) ==> Cell(c.x + 1, c.y) in queue
    requires !IsWall(g, Cell(c.x - 1, c.y)) ==> Cell(c.x - 1, c.y) in queue
    requires !IsWall(g, Cell(c.x, c.y + 1)) ==> Cell(c.x, c.y + 1) in queue
    requires !IsWall(g, Cell(c.x, c.y - 1)) ==> Cell(c.x, c.y - 1) in queue
    ensures forall d :: Adjacent(c, d) && !IsWall(g, d) ==> d in queue
  {
    hide IsWall;
  }

  lemma Expanded(g: Grid, start: Cell, queue: seq<Cell>, head: nat, c: Cell)
    requires Valid(g) && Searching(g, start, queue, head) && head < |queue| && queue[head] == c
    requires forall d :: Adjacent(c, d) && !IsWall(g, d) ==> d in queue
    ensures Searching(g, start, queue, head + 1)
  {
    hide Reachable, Inside, Adjacent, IsWall;
    forall i, d | 0 <= i < head + 1 && Step(g, queue[i], d) ensures d in queue {
      if i == head {
        assert Adjacent(c, d) && !IsWall(g, d);
      }
    }
  }

  lemma ShowsNothing(g: Grid, visited: seq<bool>, qx: seq<int>, qy: seq<int>)
    requires Valid(g) && |visited| == |qx| == |qy| == g.width * g.height
    requires forall k :: 0 <= k < |visited| ==> !visited[k]
    ensures Shows(g, visited, qx, qy, [])
  {
    hide Index;
    forall c | Inside(g, c) ensures !Marked(g, visited, c) {
      InsideHasIndex(g, c);
    }
  }

  lemma ShowsHead(g: Grid, visited: seq<bool>, qx: seq<int>, qy: seq<int>, queue: seq<Cell>, k: nat)
    requires Valid(g) && Shows(g, visited, qx, qy, queue) && k < |queue|
    ensures k < |qx| == |qy| == |visited| == g.width * g.height
    ensures Cell(qx[k], qy[k]) == queue[k]
  {}

  lemma QueuedIsReachable(g: Grid, start: Cell, queue: seq<Cell>, head: nat, k: nat)
    requires Valid(g) && Searching(g, start, queue, head) && k < |queue|
    ensures Reachable(g, start, queue[k])
  {}

  /** The three vectors, with the start as the only queued tile. */
  method StartSearch(g: Grid, start: Cell) returns (visited: array<bool>, qx: array<int>, qy: array<int>)
    requires Valid(g) && Inside(g, start)
    ensures fresh(visited) && fresh(qx) && fresh(qy) && qx != qy
    ensures Shows(g, visited[..], qx[..], qy[..], [start])
    ensures Searching(g, start, [start], 0)
  {
    InsideHasIndex(g, start);
    hide Index, Inside, Reachable;
    var n: nat := g.width * g.height;
    visited := new bool[n](_ => false);
    qx, qy := new int[n](_ => 0), new int[n](_ => 0);
    ShowsNothing(g, visited[..], qx[..], qy[..]);
    ShowsPush(g, visited[..], qx[..], qy[..], [], start);
    hide Shows;
    ghost var v, x, y := visited[..], qx[..], qy[..];
    qx[0], qy[0] := start.x, start.y;
    visited[Index(g, start)] := true;
    assert visited[..] == v[Index(g, start) := true] && qx[..] == x[0 := start.x] && qy[..] == y[0 := start.y];
    assert [] + [start] == [start];
    SearchStarts(g, start);
  }

  /** `demo_validate_level_reachability`. For grids of every size it ends, stays inside its arrays and
      succeeds exactly when the exit can be walked to. */
  method ReachesExit(g: Grid, start: Cell, exit: Cell) returns (ok: bool)
    requires Valid(g) && Inside(g, start)
    ensures ok <==> Reachable(g, start, exit)
  {
    hide Index, Inside, Reachable, Shows, Searching, Marked;
    var visited, qx, qy := StartSearch(g, start);
    ghost var n := g.width * g.height;
    var head, tail := 0, 1;
    ghost var queue := [start];
    while head < tail
      invariant head <= tail == |queue|
      invariant Shows(g, visited[..], qx[..], qy[..], queue)
      invariant Searching(g, start, queue, head)
      invariant exit !in queue[..head]
      invariant fresh(visited) && fresh(qx) && fresh(qy)
      decreases n - head
    {
      ShowsHead(g, visited[..], qx[..], qy[..], queue, head);
      if qx[head] == exit.x && qy[head] == exit.y {
        QueuedIsReachable(g, start, queue, head, head);
        return true;
      }
      ghost var before := queue;
      tail, queue := ExpandHead(g, visited, qx, qy, tail, start, queue, head);
      assert queue[..head + 1] == before[..head] + [before[head]];
      head := head + 1;
    }
    assert queue[..head] == queue;
    SearchEnds(g, start, queue, exit);
    return false;
  }

  // ---- Tiles ----

  predicate LegalTile(g: Grid, c: Cell)
    requires Valid(g)
  {
    var t := TileAt(g, c);
    && (t == '0' || t == '1' || t == 'E')
    && (c.y == 0 || c.y == g.height - 1 || c.x == 0 || c.x == g.width - 1 ==> t == '1' || t == 'E')
  }

  predicate IsExit(g: Grid, c: Cell)
    requires Valid(g)
  {
    Inside(g, c) && TileAt(g, c) == 'E'
  }

  /** c comes before (x, y) in the row-by-row scan. */
  predicate Scanned(g: Grid, c: Cell, x: int, y: int) {
    Inside(g, c) && (c.y < y || (c.y == y && c.x < x))
  }

  /** The scan so far: legal tiles only, and the exits among them counted up to two. */
  ghost predicate ScanOk(g: Grid, x: int, y: int, count: nat, exit: Cell)
    requires Valid(g)
  {
    && (forall c :: Scanned(g, c, x, y) ==> LegalTile(g, c))
    && (count == 0 ==> forall c :: Scanned(g, c, x, y) ==> !IsExit(g, c))
    && (count > 0 ==> IsExit(g, exit) && Scanned(g, exit, x, y))
    && (count == 1 ==> forall c :: Scanned(g, c, x, y) && IsExit(g, c) ==> c == exit)
    && (count > 1 ==> exists c :: c != exit && IsExit(g, c))
  }

  /** What the tile check accepts: legal tiles, a closed border, exactly one exit. */
  ghost predicate TilesOk(g: Grid, exit: Cell)
    requires Valid(g)
  {
    && (forall c :: Inside(g, c) ==> LegalTile(g, c))
    && IsExit(g, exit)
    && forall c :: IsExit(g, c) ==> c == exit
  }

  lemma ScanNext(g: Grid, x: int, y: int, count: nat, exit: Cell)
    requires Valid(g) && Inside(g, Cell(x, y)) && ScanOk(g, x, y, count, exit) && LegalTile(g, Cell(x, y))
    ensures if TileAt(g, Cell(x, y)) == 'E' then ScanOk(g, x + 1, y, count + 1, Cell(x, y))
            else ScanOk(g, x + 1, y, count, exit)
  {
    hide TileAt, LegalTile;
    forall c ensures Scanned(g, c, x + 1, y) <==> Scanned(g, c, x, y) || c == Cell(x, y) {
      if Scanned(g, c, x + 1, y) && !Scanned(g, c, x, y) {
        assert c.x == x && c.y == y;
      }
    }
    hide Scanned;
    assert !Scanned(g, Cell(x, y), x, y) by { NotYetScanned(g, x, y); }
    if TileAt(g, Cell(x, y)) == 'E' && count > 0 {
      assert exit != Cell(x, y);
    }
  }

  lemma NotYetScanned(g: Grid, x: int, y: int)
    ensures !Scanned(g, Cell(x, y), x, y)
  {}

  /** `demo_validate_level_tiles`. */
  method CheckTiles(g: Grid) returns (ok: bool, exit: Cell)
    requires Valid(g)
    ensures ok <==> exists e :: TilesOk(g, e)
    ensures ok ==> TilesOk(g, exit)
  {
    var count := 0;
    exit := Cell(-1, -1);
    var y := 0;
    while y < g.height
      invariant 0 <= y <= g.height
      invariant ScanOk(g, 0, y, count, exit)
    {
      var x := 0;
      while x < g.width
        invariant 0 <= x <= g.width
        invariant ScanOk(g, x, y, count, exit)
      {
        var tile := TileAt(g, Cell(x, y));
        assert LegalTile(g, Cell(x, y)) <==>
          ((tile == '0' || tile == '1' || tile == 'E')
           && ((y == 0 || y == g.height - 1 || x == 0 || x == g.width - 1) ==> tile == '1' || tile == 'E'));
        if tile != '0' && tile != '1' && tile != 'E' {
          return false, exit;
        }
        if (y == 0 || y == g.height - 1 || x == 0 || x == g.width - 1) && tile != '1' && tile != 'E' {
          return false, exit;
        }
        hide ScanOk, LegalTile, TileAt;
        ScanNext(g, x, y, count, exit);
        if tile == 'E' {
          exit := Cell(x, y);
          count := count + 1;
        }
        x := x + 1;
      }
      NextRow(g, y, count, exit);
      y := y + 1;
    }
    ScanEnds(g, count, exit);
    ok := count == 1;
  }

  lemma NextRow(g: Grid, y: int, count: nat, exit: Cell)
    requires Valid(g) && ScanOk(g, g.width, y, count, exit)
    ensures ScanOk(g, 0, y + 1, count, exit)
  {
    hide TileAt, LegalTile, IsExit;
    assert forall c :: Scanned(g, c, 0, y + 1) <==> Scanned(g, c, g.width, y);
  }

  lemma ScanEnds(g: Grid, count: nat, exit: Cell)
    requires Valid(g) && ScanOk(g, 0, g.height, count, exit)
    ensures (exists e :: TilesOk(g, e)) <==> count == 1
    ensures count == 1 ==> TilesOk(g, exit)
  {
    hide TileAt, LegalTile;
    assert forall c :: Inside(g, c) <==> Scanned(g, c, 0, g.height);
    if count == 1 {
      assert TilesOk(g, exit);
    }
  }

  // ---- A level ----

  /** The fields that validation reads; positions are in tiles, fractional. */
  datatype Level = Level(name: Option<string>, tiles: Option<string>, width: int, height: int, startX: real, startY: real)

  /** Conversion of a floating-point position to a tile index: towards zero. */
  function Truncate(r: real): int { if r >= 0.0 then r.Floor else -(-r).Floor }

  ghost predicate LevelOk(l: Level)
    requires l.tiles.Some? && l.width > 0 && l.height > 0 ==> |l.tiles.value| >= l.width * l.height
  {
    && l.name.Some? && l.tiles.Some? && l.width > 0 && l.height > 0
    && var g := Grid(l.tiles.value, l.width, l.height);
    var start := Cell(Truncate(l.startX), Truncate(l.startY));
    && Inside(g, start) && !IsWall(g, start)
    && exists exit :: TilesOk(g, exit) && Reachable(g, start, exit)
  }

  /** `demo_validate_one_level`: a named, closed maze with one exit that can be walked to from the start. */
  method ValidateLevel(l: Level) returns (ok: bool)
    requires l.tiles.Some? && l.width > 0 && l.height > 0 ==> |l.tiles.value| >= l.width * l.height
    ensures ok <==> LevelOk(l)
  {
    if l.name.None? || l.tiles.None? || l.width <= 0 || l.height <= 0 {
      return false;
    }
    var g := Grid(l.tiles.value, l.width, l.height);
    var start := Cell(Truncate(l.startX), Truncate(l.startY));
    if start.x < 0 || start.y < 0 || start.x >= l.width || start.y >= l.height {
      return false;
    }
    if IsWall(g, start) {
      return false;
    }
    hide Reachable, IsWall, LegalTile;
    var tilesOk, exit := CheckTiles(g);
    if !tilesOk {
      return false;
    }
    ok := ReachesExit(g, start, exit);
  }
}
