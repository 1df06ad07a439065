/**
 * The grid and its collapse/propagation engine (src/grid.rs).
 *
 * A toroidal `width x height` grid of cells, each holding the set of tile ids
 * still possible and, once collapsed, the tile it was resolved to. A step
 * picks the unresolved cell of least entropy, resolves it to one of its
 * options and propagates: a worklist of cells whose neighbours' options are
 * intersected with the union of what the cell's options allow in that
 * direction.
 */
module Grid {
  import opened Wrappers
  import opened IndexMath
  import opened Tileset

  /** A grid cell (grid.rs:198-201); `Cell::new` is `Cell(None, options)`. */
  datatype Cell = Cell(finalTile: Option<nat>, options: set<nat>) {
    /** `Cell::entropy`: how many tiles are still possible; zero means a contradiction (grid.rs:211-214). */
    function Entropy(): (e: nat)
      ensures e == 0 <==> options == {}
      ensures finalTile.Some? && options == {finalTile.value} ==> e == 1
    {
      |options|
    }
  }

  // ---------------------------------------------------------------------------
  // Toroidal geometry

  /** The column step of a direction. */
  function DeltaX(d: Direction): int {
    match d
    case East => 1
    case West => -1
    case _ => 0
  }

  /** The row step of a direction (north is the previous row). */
  function DeltaY(d: Direction): int {
    match d
    case North => -1
    case South => 1
    case _ => 0
  }

  /**
   * `get_neighbor` (grid.rs:133-145): step one cell in direction `d` and wrap
   * each axis on its own with `rem_euclid` (Dafny's `%` is Euclidean too).
   */
  function GetNeighbor(w: nat, h: nat, index: nat, d: Direction): (r: nat)
    requires w > 0 && h > 0
    ensures r < w * h
    ensures r % w == (index % w + DeltaX(d)) % w
    ensures r / w == (index / w + DeltaY(d)) % h
  {
    var x: int := index % w;
    var y: int := index / w;
    var (x1, y1) :=
      match d
      case North => (x, y - 1)
      case East => (x + 1, y)
      case South => (x, y + 1)
      case West => (x - 1, y);
    var x2 := x1 % w;
    var y2 := y1 % h;
    DivModIdx(x2, y2, w);
    Idx(x2, y2, w, h)
  }

  lemma WrapBack(a: int, dx: int, w: nat)
    requires 0 <= a < w && -1 <= dx <= 1
    ensures ((a + dx) % w - dx) % w == a
  {
    if a + dx == w {
      DivModIdx(0, 1, w);
    } else if a + dx == -1 {
      DivModIdx(w - 1, 0, w);
      assert (a + dx) % w == w - 1;
    } else {
      DivModIdx(a + dx, 0, w);
      DivModIdx(a, 0, w);
    }
  }

  /** The arithmetic behind `StepBack`, on offsets given only through their columns and rows. */
  lemma StepBackCoords(w: nat, h: nat, i: nat, r: nat, r2: nat, d: Direction)
    requires w > 0 && h > 0 && i < w * h && r2 < w * h
    requires r % w == (i % w + DeltaX(d)) % w && r / w == (i / w + DeltaY(d)) % h
    requires r2 % w == (r % w + DeltaX(Opposite(d))) % w && r2 / w == (r / w + DeltaY(Opposite(d))) % h
    ensures r2 == i
  {
    var x, y := i % w, i / w;
    assert 0 <= x < w && 0 <= y < h by { SplitBounds(i, w, h); }
    assert DeltaX(Opposite(d)) == -DeltaX(d) && DeltaY(Opposite(d)) == -DeltaY(d);
    assert r2 % w == x by { WrapBack(x, DeltaX(d), w); }
    assert r2 / w == y by { WrapBack(y, DeltaY(d), h); }
    IdxEq(r2, i, w, h);
  }

  /** Stepping in a direction and then in the opposite one returns to the starting cell. */
  lemma StepBack(w: nat, h: nat, i: nat, d: Direction)
    requires w > 0 && h > 0 && i < w * h
    ensures GetNeighbor(w, h, GetNeighbor(w, h, i, d), Opposite(d)) == i
  {
    var r := GetNeighbor(w, h, i, d);
    StepBackCoords(w, h, i, r, GetNeighbor(w, h, r, Opposite(d)), d);
  }

  /** Two offsets are equal exactly when their columns and rows are. */
  lemma IdxEq(i: nat, j: nat, w: nat, h: nat)
    requires i < w * h && j < w * h
    ensures i == j <==> i % w == j % w && i / w == j / w
  {
    IdxSplit(i, w, h);
    IdxSplit(j, w, h);
  }

  /** One wrapped step along an axis of length `w` stays put only on a one-cell axis. */
  lemma WrapStep(a: int, dx: int, w: nat)
    requires 0 <= a < w && -1 <= dx <= 1
    ensures (a + dx) % w == a <==> dx == 0 || w == 1
  {
    if dx == 0 {
      DivModIdx(a, 0, w);
    } else if a + dx == w {
      DivModIdx(0, 1, w);
    } else if a + dx == -1 {
      DivModIdx(w - 1, 0, w);
      assert (a + dx) % w == w - 1;
    } else {
      DivModIdx(a + dx, 0, w);
    }
  }

  /** The arithmetic behind `NeighborIsSelf`, on offsets given only through their columns and rows. */
  lemma SelfCoords(w: nat, h: nat, i: nat, r: nat, d: Direction)
    requires w > 0 && h > 0 && i < w * h && r < w * h
    requires r % w == (i % w + DeltaX(d)) % w && r / w == (i / w + DeltaY(d)) % h
    ensures r == i <==> (if d == East || d == West then w == 1 else h == 1)
  {
    var x, y := i % w, i / w;
    assert 0 <= x < w && 0 <= y < h by { SplitBounds(i, w, h); }
    assert r == i <==> r % w == x && r / w == y by { IdxEq(r, i, w, h); }
    assert r % w == x <==> DeltaX(d) == 0 || w == 1 by { WrapStep(x, DeltaX(d), w); }
    assert r / w == y <==> DeltaY(d) == 0 || h == 1 by { WrapStep(y, DeltaY(d), h); }
  }

  /**
   * A cell is its own neighbour exactly when the grid is one cell wide (for
   * east and west) or one cell high (for north and south). `get_many_mut`
   * refuses two equal indices, so propagation panics on such grids.
   */
  lemma NeighborIsSelf(w: nat, h: nat, i: nat, d: Direction)
    requires w > 0 && h > 0 && i < w * h
    ensures GetNeighbor(w, h, i, d) == i <==> (if d == East || d == West then w == 1 else h == 1)
  {
    SelfCoords(w, h, i, GetNeighbor(w, h, i, d), d);
  }

  // ---------------------------------------------------------------------------
  // Cell invariants, solutions and support

  /** Every option names a tile, and a resolved cell holds exactly its tile. */
  predicate CellOk(c: Cell, tileCount: nat) {
    && (forall t | t in c.options :: t < tileCount)
    && (c.finalTile.Some? ==> c.options == {c.finalTile.value})
  }

  /** The union of the `d`-neighbour sets of the tiles in `opts` (the fold at grid.rs:106-116). */
  function Allowed(tiles: seq<Tile>, opts: set<nat>, d: Direction): set<nat> {
    set t, u | t in opts && t < |tiles| && |tiles[t].neighbors| == 4 && u in tiles[t].neighbors[d.Index()] :: u
  }

  /**
   * `Allowed` is the union the fold at grid.rs:106-116 builds: it contains the
   * `d`-neighbour set of every option, and each of its tiles comes from one of them.
   */
  lemma AllowedUnion(tiles: seq<Tile>, opts: set<nat>, d: Direction)
    ensures forall t | t in opts && t < |tiles| && |tiles[t].neighbors| == 4 ::
              tiles[t].neighbors[d.Index()] <= Allowed(tiles, opts, d)
    ensures forall u | u in Allowed(tiles, opts, d) ::
              exists t :: t in opts && t < |tiles| && |tiles[t].neighbors| == 4 && u in tiles[t].neighbors[d.Index()]
  {
  }

  /** A cell with fewer options allows no more tiles next to it, so narrowing a cell never widens its neighbours. */
  lemma AllowedMono(tiles: seq<Tile>, fewer: set<nat>, more: set<nat>, d: Direction)
    requires fewer <= more
    ensures Allowed(tiles, fewer, d) <= Allowed(tiles, more, d)
  {
  }

  /**
   * A complete assignment of tiles to cells that respects every neighbour set:
   * the tile in the `d`-neighbour of cell `i` is a `d`-neighbour of `i`'s tile.
   */
  ghost predicate Solution(tiles: seq<Tile>, w: nat, h: nat, s: seq<nat>)
    requires w > 0 && h > 0
  {
    && |s| == w * h
    && (forall i | 0 <= i < |s| :: s[i] < |tiles| && |tiles[s[i]].neighbors| == 4)
    && (forall i, k | 0 <= i < |s| && 0 <= k < 4 :: s[GetNeighbor(w, h, i, Values[k])] in tiles[s[i]].neighbors[k])
  }

  /** Each cell's tile in `s` is still among that cell's options. */
  ghost predicate Within(s: seq<nat>, cs: seq<Cell>) {
    |s| == |cs| && forall i | 0 <= i < |s| :: s[i] in cs[i].options
  }

  /**
   * Cell `c` has nothing left to say about its `d`-neighbour: the neighbour is
   * resolved, or all its options are allowed by `c`'s options. A cell with no
   * options says nothing (propagation stops at it).
   */
  ghost predicate Supports(tiles: seq<Tile>, w: nat, h: nat, cs: seq<Cell>, c: nat, d: Direction)
    requires w > 0 && h > 0 && |cs| == w * h && c < |cs|
  {
    var n := GetNeighbor(w, h, c, d);
    cs[c].options == {} || cs[n].finalTile.Some? || cs[n].options <= Allowed(tiles, cs[c].options, d)
  }

  /** Every cell outside `pending` supports its four neighbours (arc consistency away from `pending`). */
  ghost predicate ArcConsistentOutside(tiles: seq<Tile>, w: nat, h: nat, cs: seq<Cell>, pending: seq<nat>)
    requires w > 0 && h > 0 && |cs| == w * h
  {
    forall c, k | 0 <= c < |cs| && c !in pending && 0 <= k < 4 :: Supports(tiles, w, h, cs, c, Values[k])
  }

  predicate NoDuplicates(q: seq<nat>) {
    forall i, j | 0 <= i < j < |q| :: q[i] != q[j]
  }

  /**
   * The source's enqueue test (grid.rs:121): the union is a proper subset of
   * the neighbour's options. It holds exactly when the intersection both
   * removes an option and equals the whole union, so every enqueue shrinks
   * the neighbour, but not every shrink enqueues.
   */
  predicate EnqueueAsWritten(allowed: set<nat>, current: set<nat>): (r: bool)
    ensures r <==> Narrows(allowed, current) && current * allowed == allowed
  {
    allowed < current
  }

  /** The enqueue test propagation needs: intersecting with the union removed an option. */
  predicate Narrows(allowed: set<nat>, current: set<nat>) {
    current * allowed < current
  }

  /**
   * The source's test misses narrowings: a neighbour with options `{0, 1}`
   * and a union `{0, 2}` is narrowed to `{0}` but not queued, so its own
   * neighbours are never re-examined against its smaller option set.
   */
  lemma AsWrittenMissesNarrowing()
    ensures Narrows({0, 2}, {0, 1}) && !EnqueueAsWritten({0, 2}, {0, 1})
    ensures {0, 1} * {0, 2} == {0}
  {
  }

  // ---------------------------------------------------------------------------
  // Sizes of option sets

  lemma SubsetCard(a: set<nat>, b: set<nat>)
    requires a <= b
    ensures |a| <= |b|
    ensures a < b ==> |a| < |b|
  {
    assert b == a + (b - a);
    assert a * (b - a) == {};
    if a < b {
      var x :| x in b - a;
    }
  }

  /** The ids `0 .. n`: all tiles of a tile set, or all cells of a grid. */
  function Upto(n: nat): (r: set<nat>)
    ensures forall t: nat :: t in r <==> t < n
    ensures |r| == n
  {
    if n == 0 then {} else Upto(n - 1) + {n - 1}
  }

  /** A set of tile ids below `n` has at most `n` elements. */
  lemma OptionsCard(opts: set<nat>, n: nat)
    requires forall t | t in opts :: t < n
    ensures |opts| <= n
  {
    SubsetCard(opts, Upto(n));
  }

  /** The number of options left in the whole grid: the measure that propagation decreases. */
  function TotalOptions(cs: seq<Cell>): nat {
    if cs == [] then 0 else TotalOptions(cs[..|cs| - 1]) + |cs[|cs| - 1].options|
  }

  /** Shrinking one cell's options shrinks the total, strictly when the cell loses an option. */
  lemma {:induction false} TotalOptionsShrink(cs: seq<Cell>, n: nat, opts: set<nat>)
    requires n < |cs| && opts <= cs[n].options
    ensures TotalOptions(cs[n := cs[n].(options := opts)]) <= TotalOptions(cs)
    ensures opts < cs[n].options ==> TotalOptions(cs[n := cs[n].(options := opts)]) < TotalOptions(cs)
  {
    var cs' := cs[n := cs[n].(options := opts)];
    SubsetCard(opts, cs[n].options);
    if n < |cs| - 1 {
      assert cs'[..|cs'| - 1] == cs[..|cs| - 1][n := cs[n].(options := opts)];
      TotalOptionsShrink(cs[..|cs| - 1], n, opts);
    } else {
      assert cs'[..|cs'| - 1] == cs[..|cs| - 1];
    }
  }

  // ---------------------------------------------------------------------------
  // Minimum entropy

  /**
   * The fold of `min_by_key` over the unresolved indices below `k`, visited in
   * ascending order: a later index replaces the running minimum only when its
   * entropy is strictly smaller, so ties go to the lowest index.
   */
  function MinEntropyCell(cells: seq<Cell>, unresolved: set<nat>, k: nat): (r: Option<nat>)
    requires k <= |cells|
    ensures r.None? <==> forall i | 0 <= i < k :: i !in unresolved
    ensures r.Some? ==> r.value < k && r.value in unresolved
    ensures r.Some? ==> forall i | 0 <= i < k && i in unresolved :: cells[r.value].Entropy() <= cells[i].Entropy()
    ensures r.Some? ==> forall i | 0 <= i < r.value && i in unresolved :: cells[r.value].Entropy() < cells[i].Entropy()
  {
    if k == 0 then None
    else
      var best := MinEntropyCell(cells, unresolved, k - 1);
      if k - 1 !in unresolved then best
      else if best.None? then Some(k - 1)
      else if cells[k - 1].Entropy() < cells[best.value].Entropy() then Some(k - 1)
      else best
  }


  // ---------------------------------------------------------------------------
  // Whole-grid states and one narrowing step, on values

  /**
   * Every option names one of `tileCount` tiles, a resolved cell holds
   * exactly its tile, and `unresolved` lists exactly the unresolved cells.
   */
  ghost predicate CellsOk(cs: seq<Cell>, tileCount: nat, unresolved: set<nat>) {
    && (forall i | 0 <= i < |cs| :: CellOk(cs[i], tileCount))
    && (forall i: nat :: i in unresolved <==> i < |cs| && cs[i].finalTile.None?)
  }

  /** `cs` comes from `start` by removing options from unresolved cells only. */
  ghost predicate NarrowedFrom(cs: seq<Cell>, start: seq<Cell>) {
    && |cs| == |start|
    && forall i | 0 <= i < |cs| ::
         && cs[i].finalTile == start[i].finalTile
         && cs[i].options <= start[i].options
         && (start[i].finalTile.Some? ==> cs[i] == start[i])
  }

  /** Every solution that `start` admitted is still admitted by `cs`. */
  ghost predicate KeepsSolutions(tiles: seq<Tile>, w: nat, h: nat, start: seq<Cell>, cs: seq<Cell>)
    requires w > 0 && h > 0
  {
    forall s | Solution(tiles, w, h, s) && Within(s, start) :: Within(s, cs)
  }

  /** The worklist holds cell indices, each at most once (it is only pushed to when absent). */
  predicate QueueOk(q: seq<nat>, cellCount: nat) {
    NoDuplicates(q) && forall x | x in q :: x < cellCount
  }

  /** The update at grid.rs:118-127: the `d`-neighbour of `c` keeps only the options `c` allows. */
  ghost function NarrowToward(tiles: seq<Tile>, w: nat, h: nat, cs: seq<Cell>, c: nat, d: Direction): seq<Cell>
    requires w > 0 && h > 0 && |cs| == w * h && c < |cs|
  {
    var n := GetNeighbor(w, h, c, d);
    cs[n := cs[n].(options := cs[n].options * Allowed(tiles, cs[c].options, d))]
  }

  /**
   * The update at grid.rs:127-128 changes only the `d`-neighbour `n` of `c`:
   * `n` keeps its final tile and only options `c` allows. Afterwards `c`
   * supports `n`, and repeating the update changes nothing.
   */
  lemma NarrowTowardEffect(tiles: seq<Tile>, w: nat, h: nat, cs: seq<Cell>, c: nat, d: Direction)
    requires w >= 2 && h >= 2 && |cs| == w * h && c < |cs|
    ensures
      var n := GetNeighbor(w, h, c, d);
      var r := NarrowToward(tiles, w, h, cs, c, d);
      && |r| == |cs|
      && (forall i | 0 <= i < |cs| && i != n :: r[i] == cs[i])
      && r[n].finalTile == cs[n].finalTile
      && r[n].options <= cs[n].options
      && r[n].options <= Allowed(tiles, cs[c].options, d)
      && Supports(tiles, w, h, r, c, d)
      && NarrowToward(tiles, w, h, r, c, d) == r
  {
    var n := GetNeighbor(w, h, c, d);
    NeighborIsSelf(w, h, c, d);
    var r := NarrowToward(tiles, w, h, cs, c, d);
    var allowed := Allowed(tiles, cs[c].options, d);
    assert r[c] == cs[c];
    assert r[n].options * allowed == r[n].options;
    assert r[n := r[n].(options := r[n].options * allowed)] == r;
  }

  /**
   * Resolving cell `ix` to one of its options (grid.rs:85-88): the cell
   * invariants hold with `ix` no longer unresolved, no cell gains an option,
   * resolved cells are untouched, and every solution that picks `option` at
   * `ix` is still admitted.
   */
  lemma ResolveCell(cs: seq<Cell>, tileCount: nat, unresolved: set<nat>, ix: nat, option: nat)
    requires CellsOk(cs, tileCount, unresolved) && ix < |cs| && option in cs[ix].options
    ensures var after := cs[ix := Cell(Some(option), {option})];
            && CellsOk(after, tileCount, unresolved - {ix})
            && (forall i | 0 <= i < |cs| :: after[i].options <= cs[i].options)
            && (forall i | 0 <= i < |cs| && cs[i].finalTile.Some? :: after[i] == cs[i])
            && (forall s | Within(s, cs) && s[ix] == option :: Within(s, after))
  {
    assert CellOk(cs[ix], tileCount);
  }

  /** Replacing a cell by one with fewer options (or a resolved one) keeps every other cell's support. */
  lemma ReplaceKeepsSupport(tiles: seq<Tile>, w: nat, h: nat, cs: seq<Cell>, n: nat, cell: Cell, c: nat, d: Direction)
    requires w > 0 && h > 0 && |cs| == w * h && n < |cs| && c < |cs| && c != n
    requires cell.options <= cs[n].options
    requires cs[n].finalTile.Some? ==> cell.finalTile.Some?
    requires Supports(tiles, w, h, cs, c, d)
    ensures Supports(tiles, w, h, cs[n := cell], c, d)
  {
  }

  /** Arc consistency away from `pending` survives replacing a pending cell by a narrower one. */
  lemma ReplaceKeepsArcConsistency(tiles: seq<Tile>, w: nat, h: nat, cs: seq<Cell>, n: nat, cell: Cell, pending: seq<nat>)
    requires w > 0 && h > 0 && |cs| == w * h && n < |cs|
    requires cell.options <= cs[n].options
    requires cs[n].finalTile.Some? ==> cell.finalTile.Some?
    requires n !in pending ==> cell == cs[n]
    requires ArcConsistentOutside(tiles, w, h, cs, pending)
    ensures ArcConsistentOutside(tiles, w, h, cs[n := cell], pending)
  {
    forall c, k | 0 <= c < |cs| && c !in pending && 0 <= k < 4
      ensures Supports(tiles, w, h, cs[n := cell], c, Values[k])
    {
      if c == n {
        assert cs[n := cell] == cs;
      } else {
        ReplaceKeepsSupport(tiles, w, h, cs, n, cell, c, Values[k]);
      }
    }
  }

  lemma ArcConsistentMono(tiles: seq<Tile>, w: nat, h: nat, cs: seq<Cell>, fewer: seq<nat>, more: seq<nat>)
    requires w > 0 && h > 0 && |cs| == w * h
    requires forall x | x in fewer :: x in more
    requires ArcConsistentOutside(tiles, w, h, cs, fewer)
    ensures ArcConsistentOutside(tiles, w, h, cs, more)
  {
  }

  /** A cell that supports all four neighbours can leave the pending set. */
  lemma ArcRelease(tiles: seq<Tile>, w: nat, h: nat, cs: seq<Cell>, c: nat, pending: seq<nat>)
    requires w > 0 && h > 0 && |cs| == w * h && c < |cs|
    requires ArcConsistentOutside(tiles, w, h, cs, [c] + pending)
    requires forall j | 0 <= j < 4 :: Supports(tiles, w, h, cs, c, Values[j])
    ensures ArcConsistentOutside(tiles, w, h, cs, pending)
  {
    forall c2, k | 0 <= c2 < |cs| && c2 !in pending && 0 <= k < 4
      ensures Supports(tiles, w, h, cs, c2, Values[k])
    {
      if c2 != c {
        assert c2 !in [c] + pending;
      }
    }
  }

  /** Popping the front of a well-formed worklist leaves a well-formed worklist without the popped cell. */
  lemma PopFront(q: seq<nat>, cellCount: nat)
    requires QueueOk(q, cellCount) && q != []
    ensures QueueOk(q[1..], cellCount) && q[0] < cellCount && q[0] !in q[1..]
    ensures q == [q[0]] + q[1..]
  {
    forall x | x in q[1..]
      ensures x < cellCount
    {
      var i :| 0 <= i < |q| - 1 && q[1..][i] == x;
      assert q[i + 1] == x && q[i + 1] in q;
    }
    forall i | 0 <= i < |q| - 1
      ensures q[1..][i] != q[0]
    {
      assert q[1..][i] == q[i + 1];
    }
    assert q[0] in q;
  }

  /** A narrowing keeps the grid well formed and only removes options of an unresolved cell. */
  lemma NarrowKeepsShape(tiles: seq<Tile>, w: nat, h: nat, start: seq<Cell>, cs: seq<Cell>, c: nat, d: Direction, tileCount: nat, unresolved: set<nat>)
    requires w > 0 && h > 0 && |cs| == w * h && c < |cs|
    requires CellsOk(cs, tileCount, unresolved) && NarrowedFrom(cs, start)
    requires cs[GetNeighbor(w, h, c, d)].finalTile.None?
    ensures CellsOk(NarrowToward(tiles, w, h, cs, c, d), tileCount, unresolved)
    ensures NarrowedFrom(NarrowToward(tiles, w, h, cs, c, d), start)
  {
    var n := GetNeighbor(w, h, c, d);
    var cs' := NarrowToward(tiles, w, h, cs, c, d);
    assert CellOk(cs[n], tileCount);
    assert CellOk(cs'[n], tileCount);
    forall i | 0 <= i < |cs'|
      ensures CellOk(cs'[i], tileCount)
    {
      if i != n {
        assert CellOk(cs[i], tileCount);
      }
    }
  }

  /** A narrowing keeps every solution the cells admitted. */
  lemma NarrowKeepsSolutions(tiles: seq<Tile>, w: nat, h: nat, start: seq<Cell>, cs: seq<Cell>, c: nat, k: nat)
    requires w > 0 && h > 0 && |cs| == w * h && c < |cs| && k < 4
    requires KeepsSolutions(tiles, w, h, start, cs)
    ensures KeepsSolutions(tiles, w, h, start, NarrowToward(tiles, w, h, cs, c, Values[k]))
  {
    var n := GetNeighbor(w, h, c, Values[k]);
    var allowed := Allowed(tiles, cs[c].options, Values[k]);
    var cs' := NarrowToward(tiles, w, h, cs, c, Values[k]);
    forall s | Solution(tiles, w, h, s) && Within(s, start)
      ensures Within(s, cs')
    {
      assert Within(s, cs);
      ValuesIndex(k);
      assert s[n] in tiles[s[c]].neighbors[k];
      assert s[n] in allowed;
    }
  }

  /**
   * One narrowing of an unresolved neighbour: the grid stays well formed,
   * only loses options, keeps every solution, and the total number of
   * options drops exactly when the neighbour loses one.
   */
  lemma NarrowStep(tiles: seq<Tile>, w: nat, h: nat, start: seq<Cell>, cs: seq<Cell>, c: nat, k: nat, tileCount: nat, unresolved: set<nat>)
    requires w > 0 && h > 0 && |cs| == w * h && c < |cs| && k < 4
    requires CellsOk(cs, tileCount, unresolved) && NarrowedFrom(cs, start) && KeepsSolutions(tiles, w, h, start, cs)
    requires cs[GetNeighbor(w, h, c, Values[k])].finalTile.None?
    ensures
      var n := GetNeighbor(w, h, c, Values[k]);
      var cs' := NarrowToward(tiles, w, h, cs, c, Values[k]);
      && CellsOk(cs', tileCount, unresolved)
      && NarrowedFrom(cs', start)
      && KeepsSolutions(tiles, w, h, start, cs')
      && TotalOptions(cs') <= TotalOptions(cs)
      && (Narrows(Allowed(tiles, cs[c].options, Values[k]), cs[n].options) ==> TotalOptions(cs') < TotalOptions(cs))
      && (!Narrows(Allowed(tiles, cs[c].options, Values[k]), cs[n].options) ==> cs' == cs)
  {
    var n := GetNeighbor(w, h, c, Values[k]);
    var allowed := Allowed(tiles, cs[c].options, Values[k]);
    NarrowKeepsShape(tiles, w, h, start, cs, c, Values[k], tileCount, unresolved);
    NarrowKeepsSolutions(tiles, w, h, start, cs, c, k);
    TotalOptionsShrink(cs, n, cs[n].options * allowed);
    if !Narrows(allowed, cs[n].options) {
      assert cs[n].options * allowed == cs[n].options;
    }
  }

  /**
   * The same step keeps arc consistency away from `c` and the worklist,
   * provided a narrowed neighbour is on the worklist, and it makes `c`
   * support the neighbour it just narrowed.
   */
  lemma NarrowStepArc(tiles: seq<Tile>, w: nat, h: nat, cs: seq<Cell>, c: nat, k: nat, before: seq<nat>, after: seq<nat>)
    requires w >= 2 && h >= 2 && |cs| == w * h && c < |cs| && k < 4
    requires forall x | x in before :: x in after
    requires
      var n := GetNeighbor(w, h, c, Values[k]);
      Narrows(Allowed(tiles, cs[c].options, Values[k]), cs[n].options) ==> n in after
    requires ArcConsistentOutside(tiles, w, h, cs, [c] + before)
    requires forall j | 0 <= j < k :: Supports(tiles, w, h, cs, c, Values[j])
    ensures
      var cs' := NarrowToward(tiles, w, h, cs, c, Values[k]);
      && ArcConsistentOutside(tiles, w, h, cs', [c] + after)
      && forall j | 0 <= j <= k :: Supports(tiles, w, h, cs', c, Values[j])
  {
    var n := GetNeighbor(w, h, c, Values[k]);
    NeighborIsSelf(w, h, c, Values[k]);
    var allowed := Allowed(tiles, cs[c].options, Values[k]);
    var cell := cs[n].(options := cs[n].options * allowed);
    assert NarrowToward(tiles, w, h, cs, c, Values[k]) == cs[n := cell];
    if !Narrows(allowed, cs[n].options) {
      assert cs[n].options * allowed == cs[n].options;
    }
    ArcConsistentMono(tiles, w, h, cs, [c] + before, [c] + after);
    ReplaceKeepsArcConsistency(tiles, w, h, cs, n, cell, [c] + after);
    forall j | 0 <= j <= k
      ensures Supports(tiles, w, h, cs[n := cell], c, Values[j])
    {
      if j < k {
        ReplaceKeepsSupport(tiles, w, h, cs, n, cell, c, Values[j]);
      }
    }
  }

  /** Pushing an absent cell index onto a well-formed worklist keeps it well formed. */
  lemma PushFront(q: seq<nat>, n: nat, cellCount: nat)
    requires QueueOk(q, cellCount) && n < cellCount && n !in q
    ensures QueueOk([n] + q, cellCount)
  {
    var q' := [n] + q;
    forall i, j | 0 <= i < j < |q'|
      ensures q'[i] != q'[j]
    {
      assert q'[j] == q[j - 1];
      if i > 0 {
        assert q'[i] == q[i - 1];
      } else {
        assert q[j - 1] in q;
      }
    }
  }

  /**
   * What holds each time the worklist loop of `propagate_options` tests its
   * guard: the cells are well formed, were only narrowed since `start`, keep
   * every solution `start` admitted, the worklist is duplicate-free, and (when
   * propagation started arc consistent away from its origin) every cell off
   * the worklist supports its neighbours.
   */
  ghost predicate WorklistInv(tiles: seq<Tile>, w: nat, h: nat, start: seq<Cell>, cs: seq<Cell>, tileCount: nat,
                              unresolved: set<nat>, queue: seq<nat>, consistent: bool, origin: nat, settled: bool)
    requires w > 0 && h > 0
  {
    && |cs| == w * h
    && CellsOk(cs, tileCount, unresolved)
    && QueueOk(queue, |cs|)
    && NarrowedFrom(cs, start)
    && KeepsSolutions(tiles, w, h, start, cs)
    && (consistent ==> ArcConsistentOutside(tiles, w, h, cs, queue))
    && (settled ==> OriginSettled(tiles, w, h, cs, origin, queue))
  }

  /**
   * What holds before direction `k` of popped cell `c`: as above with `c`
   * pending as well, the option total has dropped since the pop or the
   * worklist is as it was after the pop, and `c` already supports its
   * neighbours in the directions before `k`.
   */
  ghost predicate DirectionInv(tiles: seq<Tile>, w: nat, h: nat, start: seq<Cell>, cs: seq<Cell>, tileCount: nat,
                               unresolved: set<nat>, queue: seq<nat>, c: nat, k: nat, total0: nat, queue0: seq<nat>,
                               consistent: bool, origin: nat, settled: bool)
    requires w > 0 && h > 0
  {
    && |cs| == w * h
    && c < |cs|
    && k <= 4
    && CellsOk(cs, tileCount, unresolved)
    && QueueOk(queue, |cs|)
    && c !in queue
    && NarrowedFrom(cs, start)
    && KeepsSolutions(tiles, w, h, start, cs)
    && (TotalOptions(cs) < total0 || (TotalOptions(cs) == total0 && queue == queue0))
    && (consistent ==> ArcConsistentOutside(tiles, w, h, cs, [c] + queue))
    && (consistent ==> forall j | 0 <= j < k :: Supports(tiles, w, h, cs, c, Values[j]))
    && (settled ==> OriginVisit(tiles, w, h, cs, origin, queue, c, k))
  }

  /** `pop_front`: the popped cell becomes the one whose directions are visited. */
  lemma StartCell(tiles: seq<Tile>, w: nat, h: nat, start: seq<Cell>, cs: seq<Cell>, tileCount: nat,
                  unresolved: set<nat>, queue: seq<nat>, consistent: bool, origin: nat, settled: bool)
    requires w > 0 && h > 0 && queue != []
    requires WorklistInv(tiles, w, h, start, cs, tileCount, unresolved, queue, consistent, origin, settled)
    ensures DirectionInv(tiles, w, h, start, cs, tileCount, unresolved, queue[1..], queue[0], 0, TotalOptions(cs), queue[1..], consistent, origin, settled)
  {
    PopFront(queue, |cs|);
    if settled {
      OriginPop(tiles, w, h, cs, origin, queue);
    }
  }

  /** `continue` on a resolved neighbour: the cell trivially supports it. */
  lemma SkipDirection(tiles: seq<Tile>, w: nat, h: nat, start: seq<Cell>, cs: seq<Cell>, tileCount: nat,
                      unresolved: set<nat>, queue: seq<nat>, c: nat, k: nat, total0: nat, queue0: seq<nat>, consistent: bool, origin: nat, settled: bool)
    requires w > 0 && h > 0 && k < 4
    requires DirectionInv(tiles, w, h, start, cs, tileCount, unresolved, queue, c, k, total0, queue0, consistent, origin, settled)
    requires cs[GetNeighbor(w, h, c, Values[k])].finalTile.Some?
    ensures DirectionInv(tiles, w, h, start, cs, tileCount, unresolved, queue, c, k + 1, total0, queue0, consistent, origin, settled)
  {
    assert Supports(tiles, w, h, cs, c, Values[k]);
    if settled {
      OriginSkip(tiles, w, h, cs, origin, queue, c, k);
    }
  }

  /** `break` on a cell without options: such a cell supports every neighbour. */
  lemma EmptyCellDone(tiles: seq<Tile>, w: nat, h: nat, start: seq<Cell>, cs: seq<Cell>, tileCount: nat,
                      unresolved: set<nat>, queue: seq<nat>, c: nat, k: nat, total0: nat, queue0: seq<nat>, consistent: bool, origin: nat, settled: bool)
    requires w > 0 && h > 0
    requires DirectionInv(tiles, w, h, start, cs, tileCount, unresolved, queue, c, k, total0, queue0, consistent, origin, settled)
    requires cs[c].options == {}
    ensures DirectionInv(tiles, w, h, start, cs, tileCount, unresolved, queue, c, 4, total0, queue0, consistent, origin, settled)
  {
    if settled {
      OriginEmpty(tiles, w, h, cs, origin, queue, c, k);
    }
  }

  /**
   * One narrowing of the loop body (grid.rs:106-128). The worklist either is
   * unchanged or gains the neighbour at its front, and only when the
   * neighbour lost an option; a neighbour that lost an option must be queued
   * for arc consistency to be kept.
   */
  lemma NarrowDirection(tiles: seq<Tile>, w: nat, h: nat, start: seq<Cell>, cs: seq<Cell>, tileCount: nat,
                        unresolved: set<nat>, queue: seq<nat>, queue': seq<nat>, c: nat, k: nat, total0: nat,
                        queue0: seq<nat>, consistent: bool, origin: nat, settled: bool)
    requires w >= 2 && h >= 2 && k < 4
    requires DirectionInv(tiles, w, h, start, cs, tileCount, unresolved, queue, c, k, total0, queue0, consistent, origin, settled)
    requires cs[GetNeighbor(w, h, c, Values[k])].finalTile.None?
    requires
      var n := GetNeighbor(w, h, c, Values[k]);
      var narrows := Narrows(Allowed(tiles, cs[c].options, Values[k]), cs[n].options);
      && (queue' == queue || (n !in queue && narrows && queue' == [n] + queue))
      && (consistent && narrows ==> n in queue')
    ensures DirectionInv(tiles, w, h, start, NarrowToward(tiles, w, h, cs, c, Values[k]), tileCount, unresolved,
                         queue', c, k + 1, total0, queue0, consistent, origin, settled)
  {
    var n := GetNeighbor(w, h, c, Values[k]);
    NeighborIsSelf(w, h, c, Values[k]);
    NarrowStep(tiles, w, h, start, cs, c, k, tileCount, unresolved);
    if queue' != queue {
      PushFront(queue, n, |cs|);
    }
    if consistent {
      NarrowStepArc(tiles, w, h, cs, c, k, queue, queue');
    }
    if settled {
      OriginNarrow(tiles, w, h, cs, origin, queue, queue', c, k);
    }
  }

  /** After the four directions the popped cell supports all its neighbours and leaves the pending set. */
  lemma FinishCell(tiles: seq<Tile>, w: nat, h: nat, start: seq<Cell>, cs: seq<Cell>, tileCount: nat,
                   unresolved: set<nat>, queue: seq<nat>, c: nat, total0: nat, queue0: seq<nat>, consistent: bool, origin: nat, settled: bool)
    requires w > 0 && h > 0
    requires DirectionInv(tiles, w, h, start, cs, tileCount, unresolved, queue, c, 4, total0, queue0, consistent, origin, settled)
    ensures WorklistInv(tiles, w, h, start, cs, tileCount, unresolved, queue, consistent, origin, settled)
  {
    if consistent {
      ArcRelease(tiles, w, h, cs, c, queue);
    }
    if settled {
      OriginFinish(tiles, w, h, cs, origin, queue, c);
    }
  }

  /**
   * Propagation from a resolved cell `origin`: until it is popped the worklist
   * is just `origin`; afterwards `origin` stays off the worklist and supports
   * its four neighbours. A resolved cell is never narrowed and never queued.
   */
  ghost predicate OriginSettled(tiles: seq<Tile>, w: nat, h: nat, cs: seq<Cell>, origin: nat, queue: seq<nat>)
    requires w > 0 && h > 0
  {
    && |cs| == w * h && origin < |cs|
    && cs[origin].finalTile.Some? && cs[origin].options != {}
    && (queue == [origin] || (origin !in queue && forall j | 0 <= j < 4 :: Supports(tiles, w, h, cs, origin, Values[j])))
  }

  /** The same while the directions of popped cell `c` are visited; if `c` is `origin`, the first `k` are done. */
  ghost predicate OriginVisit(tiles: seq<Tile>, w: nat, h: nat, cs: seq<Cell>, origin: nat, queue: seq<nat>, c: nat, k: nat)
    requires w > 0 && h > 0
  {
    && |cs| == w * h && origin < |cs| && k <= 4
    && cs[origin].finalTile.Some? && cs[origin].options != {}
    && origin !in queue
    && forall j | 0 <= j < 4 && (c != origin || j < k) :: Supports(tiles, w, h, cs, origin, Values[j])
  }

  lemma OriginStart(tiles: seq<Tile>, w: nat, h: nat, cs: seq<Cell>, tileCount: nat, unresolved: set<nat>, origin: nat)
    requires w > 0 && h > 0 && |cs| == w * h && origin < |cs|
    requires CellsOk(cs, tileCount, unresolved) && cs[origin].finalTile.Some?
    ensures OriginSettled(tiles, w, h, cs, origin, [origin])
  {
    assert CellOk(cs[origin], tileCount);
  }

  lemma OriginPop(tiles: seq<Tile>, w: nat, h: nat, cs: seq<Cell>, origin: nat, queue: seq<nat>)
    requires w > 0 && h > 0 && queue != []
    requires OriginSettled(tiles, w, h, cs, origin, queue)
    ensures OriginVisit(tiles, w, h, cs, origin, queue[1..], queue[0], 0)
  {
    if queue != [origin] {
      assert queue[0] in queue;
      forall x | x in queue[1..]
        ensures x != origin
      {
        var i :| 0 <= i < |queue| - 1 && queue[1..][i] == x;
        assert queue[i + 1] in queue;
      }
    }
  }

  /** `continue` on a resolved neighbour: the origin supports a resolved neighbour. */
  lemma OriginSkip(tiles: seq<Tile>, w: nat, h: nat, cs: seq<Cell>, origin: nat, queue: seq<nat>, c: nat, k: nat)
    requires w > 0 && h > 0 && k < 4 && c < |cs|
    requires OriginVisit(tiles, w, h, cs, origin, queue, c, k)
    requires cs[GetNeighbor(w, h, c, Values[k])].finalTile.Some?
    ensures OriginVisit(tiles, w, h, cs, origin, queue, c, k + 1)
  {
  }

  /** `break` on a cell without options: that cell is not the origin, which keeps its option. */
  lemma OriginEmpty(tiles: seq<Tile>, w: nat, h: nat, cs: seq<Cell>, origin: nat, queue: seq<nat>, c: nat, k: nat)
    requires w > 0 && h > 0 && c < |cs|
    requires OriginVisit(tiles, w, h, cs, origin, queue, c, k)
    requires cs[c].options == {}
    ensures OriginVisit(tiles, w, h, cs, origin, queue, c, 4)
  {
  }

  /**
   * One narrowing: the narrowed neighbour is unresolved, so it is not the
   * origin and may be queued; the origin's support survives, and when the
   * origin is the cell being visited it now supports direction `k` as well.
   */
  lemma OriginNarrow(tiles: seq<Tile>, w: nat, h: nat, cs: seq<Cell>, origin: nat, queue: seq<nat>, queue': seq<nat>, c: nat, k: nat)
    requires w >= 2 && h >= 2 && k < 4 && c < |cs|
    requires OriginVisit(tiles, w, h, cs, origin, queue, c, k)
    requires cs[GetNeighbor(w, h, c, Values[k])].finalTile.None?
    requires queue' == queue || queue' == [GetNeighbor(w, h, c, Values[k])] + queue
    ensures OriginVisit(tiles, w, h, NarrowToward(tiles, w, h, cs, c, Values[k]), origin, queue', c, k + 1)
  {
    var n := GetNeighbor(w, h, c, Values[k]);
    NeighborIsSelf(w, h, c, Values[k]);
    var cell := cs[n].(options := cs[n].options * Allowed(tiles, cs[c].options, Values[k]));
    var cs' := cs[n := cell];
    assert NarrowToward(tiles, w, h, cs, c, Values[k]) == cs';
    forall j | 0 <= j < 4 && (c != origin || j < k + 1)
      ensures Supports(tiles, w, h, cs', origin, Values[j])
    {
      if c != origin || j < k {
        ReplaceKeepsSupport(tiles, w, h, cs, n, cell, origin, Values[j]);
      } else {
        assert cs'[c] == cs[c];
      }
    }
  }

  lemma OriginFinish(tiles: seq<Tile>, w: nat, h: nat, cs: seq<Cell>, origin: nat, queue: seq<nat>, c: nat)
    requires w > 0 && h > 0
    requires OriginVisit(tiles, w, h, cs, origin, queue, c, 4)
    ensures OriginSettled(tiles, w, h, cs, origin, queue)
  {
  }

  // ---------------------------------------------------------------------------
  // The grid

  class Grid {
    const tileset: TileSet
    const width: nat
    const height: nat
    /** The cells, row-major: cell `(x, y)` is at `x + y * width`. */
    const cells: array<Cell>
    /** The indices of the cells not yet resolved. */
    var uncollapsed: set<nat>

    ghost predicate Valid()
      reads this, tileset, cells
    {
      && tileset.Valid()
      && cells.Length == width * height
      && CellsOk(cells[..], |tileset.tiles|, uncollapsed)
    }

    /** No cell was narrowed in a way its neighbours have not caught up with. */
    ghost predicate ArcConsistent()
      requires Valid()
      reads this, tileset, cells
    {
      width == 0 || height == 0 || ArcConsistentOutside(tileset.tiles, width, height, cells[..], [])
    }

    /**
     * `Grid::new` (grid.rs:46-58): every cell is `Cell::new` of all tile ids
     * `0 .. tileset.len()` and every index is unresolved.
     */
    constructor (tileset: TileSet, width: nat, height: nat)
      requires tileset.Valid()
      ensures Valid()
      ensures this.tileset == tileset && this.width == width && this.height == height
      ensures fresh(cells)
      ensures forall i | 0 <= i < cells.Length :: cells[i] == Cell(None, Upto(|tileset.tiles|))
      ensures uncollapsed == Upto(width * height)
    {
      this.tileset := tileset;
      this.width := width;
      this.height := height;
      var allOptions := Upto(tileset.Len());
      cells := new Cell[width * height](_ => Cell(None, allOptions));
      uncollapsed := Upto(width * height);
    }

    /** `entropy` (grid.rs:147-149): never more than the number of tiles, and 1 for a resolved cell. */
    function Entropy(index: nat): (e: nat)
      requires Valid() && index < cells.Length
      reads this, tileset, cells
      ensures e <= |tileset.tiles|
      ensures cells[index].finalTile.Some? ==> e == 1
    {
      assert CellOk(cells[..][index], |tileset.tiles|);
      OptionsCard(cells[index].options, |tileset.tiles|);
      cells[index].Entropy()
    }

    /**
     * `min_cell` (grid.rs:151-155): `None` exactly when every cell is resolved;
     * otherwise an unresolved index of least entropy, the lowest one on ties.
     * That index is never resolved, so the debug branch at grid.rs:72-74 is dead.
     */
    function MinCell(): (r: Option<nat>)
      requires Valid()
      reads this, tileset, cells
      ensures r.None? <==> uncollapsed == {}
      ensures r.Some? ==> r.value in uncollapsed && r.value < cells.Length && cells[r.value].finalTile.None?
      ensures r.Some? ==> forall i | i in uncollapsed :: i < cells.Length && Entropy(r.value) <= Entropy(i)
      ensures r.Some? ==> forall i | i in uncollapsed && i < r.value :: Entropy(r.value) < Entropy(i)
    {
      var r := MinEntropyCell(cells[..], uncollapsed, cells.Length);
      assert r.None? <==> uncollapsed == {} by {
        if uncollapsed != {} {
          var i :| i in uncollapsed;
        }
      }
      r
    }

    /** Whether `collapse_step` gets as far as `propagate_options`: some cell is unresolved and the chosen one has options. */
    predicate Collapsible()
      requires Valid()
      reads this, tileset, cells
    {
      var m := MinCell();
      m.Some? && cells[m.value].options != {}
    }

    /**
     * `collapse_step` (grid.rs:67-90). With nothing unresolved, or when the
     * chosen cell has no options left (the error branch), nothing changes.
     * Otherwise the chosen cell is resolved to one of its options, leaves
     * `uncollapsed`, and propagation runs from it, after which the resolved
     * cell supports its four neighbours. The random draw is an
     * arbitrary option. Propagation panics on a grid one cell wide or high.
     */
    method CollapseStep()
      requires Valid()
      requires Collapsible() ==> width >= 2 && height >= 2
      modifies this, cells
      ensures Valid()
      ensures !old(Collapsible()) ==> cells[..] == old(cells[..]) && uncollapsed == old(uncollapsed)
      ensures old(Collapsible()) ==>
                var ix := old(MinCell()).value;
                && cells[ix].finalTile.Some?
                && cells[ix].finalTile.value in old(cells[ix].options)
                && uncollapsed == old(uncollapsed) - {ix}
                && forall s | Solution(tileset.tiles, width, height, s) && Within(s, old(cells[..])) && s[ix] == cells[ix].finalTile.value
                     :: Within(s, cells[..])
      ensures old(Collapsible()) ==>
                forall k | 0 <= k < 4 :: Supports(tileset.tiles, width, height, cells[..], old(MinCell()).value, Values[k])
      ensures forall i | 0 <= i < cells.Length :: cells[i].options <= old(cells[i].options)
      ensures forall i | 0 <= i < cells.Length && old(cells[i].finalTile).Some? :: cells[i] == old(cells[i])
      ensures old(ArcConsistent()) ==> ArcConsistent()
    {
      var minCell := MinCell();
      if minCell.None? {
        return;
      }
      var ix := minCell.value;
      if cells[ix].options == {} {
        // `options.choose` found nothing: the source reports an error and returns.
        return;
      }
      var option :| option in cells[ix].options;
      ghost var before := cells[..];
      var collapsed := Cell(Some(option), {option});
      ResolveCell(before, |tileset.tiles|, uncollapsed, ix, option);
      cells[ix] := collapsed;
      uncollapsed := uncollapsed - {ix};
      assert cells[..] == before[ix := collapsed];
      if old(ArcConsistent()) {
        ArcConsistentMono(tileset.tiles, width, height, before, [], [ix]);
        ReplaceKeepsArcConsistency(tileset.tiles, width, height, before, ix, collapsed, [ix]);
      }
      ghost var resolved := cells[..];
      PropagateOptions(ix);
      forall s | Solution(tileset.tiles, width, height, s) && Within(s, before) && s[ix] == option
        ensures Within(s, cells[..])
      {
        assert Within(s, resolved);
      }
    }

    /**
     * `propagate_options` (grid.rs:92-131) with the enqueue test corrected:
     * a neighbour is queued whenever its options shrink. Options only shrink,
     * resolved cells and `uncollapsed` do not change, no solution is lost, a
     * resolved start cell ends up supporting its four neighbours, and if
     * every cell but `index` supported its neighbours before, every cell
     * does afterwards.
     */
    method PropagateOptions(index: nat)
      requires Valid() && width >= 2 && height >= 2 && index < cells.Length
      modifies cells
      ensures Valid()
      ensures NarrowedFrom(cells[..], old(cells[..]))
      ensures KeepsSolutions(tileset.tiles, width, height, old(cells[..]), cells[..])
      ensures old(cells[index].finalTile).Some? ==>
                forall k | 0 <= k < 4 :: Supports(tileset.tiles, width, height, cells[..], index, Values[k])
      ensures old(ArcConsistentOutside(tileset.tiles, width, height, cells[..], [index]))
              ==> ArcConsistentOutside(tileset.tiles, width, height, cells[..], [])
    {
      ghost var tiles := tileset.tiles;
      ghost var start := cells[..];
      ghost var consistent := ArcConsistentOutside(tiles, width, height, start, [index]);
      ghost var settled := cells[index].finalTile.Some?;
      if settled {
        OriginStart(tiles, width, height, start, |tiles|, uncollapsed, index);
      }
      var toUpdate: seq<nat> := [index];
      while toUpdate != []
        invariant WorklistInv(tiles, width, height, start, cells[..], |tiles|, uncollapsed, toUpdate, consistent, index, settled)
        decreases TotalOptions(cells[..]), |toUpdate|
      {
        StartCell(tiles, width, height, start, cells[..], |tiles|, uncollapsed, toUpdate, consistent, index, settled);
        var cellIx := toUpdate[0];
        toUpdate := toUpdate[1..];
        ghost var total0, queue0 := TotalOptions(cells[..]), toUpdate;
        toUpdate := NarrowNeighbors(cellIx, toUpdate, true, start, total0, queue0, consistent, index, settled);
        FinishCell(tiles, width, height, start, cells[..], |tiles|, uncollapsed, toUpdate, cellIx, total0, queue0, consistent, index, settled);
      }
    }

    /**
     * `propagate_options` exactly as the source writes it (grid.rs:92-131):
     * a neighbour is queued only when the union of what the cell allows is a
     * proper subset of the neighbour's options. It keeps the invariants of
     * `PropagateOptions` (options only shrink, resolved cells and
     * `uncollapsed` are untouched, no solution is lost, the worklist has no
     * duplicates, the loop terminates, a resolved start cell ends up
     * supporting its four neighbours) but not arc consistency; see
     * `AsWrittenMissesNarrowing`.
     */
    method PropagateOptionsAsWritten(index: nat)
      requires Valid() && width >= 2 && height >= 2 && index < cells.Length
      modifies cells
      ensures Valid()
      ensures NarrowedFrom(cells[..], old(cells[..]))
      ensures KeepsSolutions(tileset.tiles, width, height, old(cells[..]), cells[..])
      ensures old(cells[index].finalTile).Some? ==>
                forall k | 0 <= k < 4 :: Supports(tileset.tiles, width, height, cells[..], index, Values[k])
    {
      ghost var tiles := tileset.tiles;
      ghost var start := cells[..];
      ghost var settled := cells[index].finalTile.Some?;
      if settled {
        OriginStart(tiles, width, height, start, |tiles|, uncollapsed, index);
      }
      var toUpdate: seq<nat> := [index];
      while toUpdate != []
        invariant WorklistInv(tiles, width, height, start, cells[..], |tiles|, uncollapsed, toUpdate, false, index, settled)
        decreases TotalOptions(cells[..]), |toUpdate|
      {
        StartCell(tiles, width, height, start, cells[..], |tiles|, uncollapsed, toUpdate, false, index, settled);
        var cellIx := toUpdate[0];
        toUpdate := toUpdate[1..];
        ghost var total0, queue0 := TotalOptions(cells[..]), toUpdate;
        toUpdate := NarrowNeighbors(cellIx, toUpdate, false, start, total0, queue0, false, index, settled);
        FinishCell(tiles, width, height, start, cells[..], |tiles|, uncollapsed, toUpdate, cellIx, total0, queue0, false, index, settled);
      }
    }

    /**
     * The direction loop of `propagate_options` (grid.rs:104-129) for the
     * popped cell `cellIx`: each unresolved neighbour keeps only the options
     * the cell allows and may be pushed to the front of the worklist; the
     * loop stops at a cell without options. `corrected` chooses the enqueue
     * test: the corrected `Narrows` or the source's `EnqueueAsWritten`.
     * The ghost parameters carry the invariants of the enclosing worklist loop.
     */
    method NarrowNeighbors(cellIx: nat, toUpdate: seq<nat>, corrected: bool, ghost start: seq<Cell>, ghost total0: nat,
                           ghost queue0: seq<nat>, ghost consistent: bool, ghost origin: nat, ghost settled: bool)
      returns (queue: seq<nat>)
      requires Valid() && width >= 2 && height >= 2
      requires consistent ==> corrected
      requires DirectionInv(tileset.tiles, width, height, start, cells[..], |tileset.tiles|, uncollapsed, toUpdate, cellIx, 0,
                            total0, queue0, consistent, origin, settled)
      modifies cells
      ensures Valid()
      ensures DirectionInv(tileset.tiles, width, height, start, cells[..], |tileset.tiles|, uncollapsed, queue, cellIx, 4,
                           total0, queue0, consistent, origin, settled)
    {
      ghost var tiles := tileset.tiles;
      queue := toUpdate;
      for k := 0 to 4
        invariant DirectionInv(tiles, width, height, start, cells[..], |tiles|, uncollapsed, queue, cellIx, k, total0, queue0, consistent, origin, settled)
      {
        var direction := Values[k];
        var neighborIx := GetNeighbor(width, height, cellIx, direction);
        // `get_many_mut([cell_ix, neighbor_ix])` needs two distinct cells:
        // with both sides at least 2 they are (`NeighborIsSelf`).
        if cells[neighborIx].finalTile.Some? {
          SkipDirection(tiles, width, height, start, cells[..], |tiles|, uncollapsed, queue, cellIx, k, total0, queue0, consistent, origin, settled);
          continue;
        }
        if cells[cellIx].options == {} {
          // No first option to fold from: `break` leaves the direction loop.
          EmptyCellDone(tiles, width, height, start, cells[..], |tiles|, uncollapsed, queue, cellIx, k, total0, queue0, consistent, origin, settled);
          break;
        }
        var allowed := Allowed(tileset.tiles, cells[cellIx].options, direction);
        ghost var cs := cells[..];
        ghost var before := queue;
        var enqueue := if corrected then Narrows(allowed, cells[neighborIx].options)
                       else EnqueueAsWritten(allowed, cells[neighborIx].options);
        if enqueue && neighborIx !in queue {
          queue := [neighborIx] + queue;
        }
        cells[neighborIx] := cells[neighborIx].(options := cells[neighborIx].options * allowed);
        assert cells[..] == NarrowToward(tiles, width, height, cs, cellIx, direction);
        NarrowDirection(tiles, width, height, start, cs, |tiles|, uncollapsed, before, queue, cellIx, k, total0, queue0, consistent, origin, settled);
      }
    }
  }
}
