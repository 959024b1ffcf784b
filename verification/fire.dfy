/**
 * automata/fire.py, class `AutoMatrix`: a grid of cells that a fire crosses
 * in rounds. `spread(i, j)` queues a burning cell; `update()` burns every
 * queued cell, looks at its eight neighbours, and sets the uninfected ones
 * among them spreading, ready for the next round. The grid is given as
 * data (the random placement of uninfected cells becomes a parameter).
 */
module Fire {

  /**
   * The cell kinds `CL_BLANK`, `CL_UNINFECTED`, `CL_SPREAD` and
   * `CL_INFECTED`. Each is an `int` (its `Code`) carrying a display colour.
   */
  datatype Cell = Blank | Uninfected | Spread | Infected

  /** The integer value of each cell kind; cells compare by it. */
  function Code(c: Cell): (v: int)
    ensures 0 <= v <= 3
  {
    match c
    case Blank => 0x0
    case Uninfected => 0x1
    case Spread => 0x2
    case Infected => 0x3
  }

  /** The red, green and blue components of each cell kind's colour. */
  function Rgb(c: Cell): (rgb: (int, int, int))
    ensures 0 <= rgb.0 < 256 && 0 <= rgb.1 < 256 && 0 <= rgb.2 < 256
  {
    match c
    case Blank => (255, 255, 240)
    case Uninfected => (50, 205, 50)
    case Spread => (255, 5, 5)
    case Infected => (191, 191, 191)
  }

  /** Two cell kinds are equal as integers exactly when they are the same kind. */
  lemma CodesDistinct(a: Cell, b: Cell)
    ensures Code(a) == Code(b) <==> a == b
  {
  }

  /** A (row, column) pair. */
  type Coord = (int, int)

  /** `NEXTS`: the offsets of the eight neighbours, in the order they are examined. */
  const Nexts: seq<Coord> := [(1, -1), (1, 0), (1, 1), (0, -1), (0, 1), (-1, -1), (-1, 0), (-1, 1)]

  /** An offset of at most one row and one column. */
  predicate Unit(o: Coord) {
    -1 <= o.0 <= 1 && -1 <= o.1 <= 1
  }

  /** The offsets are exactly the eight non-zero unit offsets, each once. */
  lemma NextsAreNeighbours()
    ensures |Nexts| == 8
    ensures forall k :: 0 <= k < |Nexts| ==> Unit(Nexts[k]) && Nexts[k] != (0, 0)
    ensures forall a, b :: 0 <= a < b < |Nexts| ==> Nexts[a] != Nexts[b]
    ensures forall o: Coord :: Unit(o) && o != (0, 0) ==> o in Nexts
  {
  }

  /** Every offset of `NEXTS` moves at most one row and one column. */
  lemma NextsUnit()
    ensures forall k :: 0 <= k < |Nexts| ==> Unit(Nexts[k])
  {
  }

  /** The cell at offset `o` from `c`. */
  function Near(c: Coord, o: Coord): Coord {
    (c.0 + o.0, c.1 + o.1)
  }

  /** A position inside a grid of `rows` by `cols` cells. */
  predicate InGrid(rows: nat, cols: nat, c: Coord) {
    0 <= c.0 < rows && 0 <= c.1 < cols
  }

  /** A list of `rows` rows of `cols` cells each. */
  ghost predicate Shape(g: seq<seq<Cell>>, rows: nat, cols: nat) {
    |g| == rows && forall r :: 0 <= r < rows ==> |g[r]| == cols
  }

  /** The cell `self[c[0]][c[1]]`. */
  function At(g: seq<seq<Cell>>, rows: nat, cols: nat, c: Coord): Cell
    requires Shape(g, rows, cols) && InGrid(rows, cols, c)
  {
    g[c.0][c.1]
  }

  /** The grid after `self[c[0]][c[1]] = v`: that cell changes and no other. */
  function Set(g: seq<seq<Cell>>, rows: nat, cols: nat, c: Coord, v: Cell): (r: seq<seq<Cell>>)
    requires Shape(g, rows, cols) && InGrid(rows, cols, c)
    ensures Shape(r, rows, cols) && At(r, rows, cols, c) == v
    ensures forall d :: InGrid(rows, cols, d) && d != c ==> At(r, rows, cols, d) == At(g, rows, cols, d)
  {
    g[c.0 := g[c.0][c.1 := v]]
  }

  /** How many cells of the grid are `v`. */
  function Count(g: seq<seq<Cell>>, v: Cell): nat {
    if g == [] then 0 else Count(g[..|g| - 1], v) + multiset(g[|g| - 1])[v]
  }

  /** Changing one cell changes the count of `v` by what left and what came. */
  lemma {:induction false} CountSet(g: seq<seq<Cell>>, rows: nat, cols: nat, c: Coord, w: Cell, v: Cell)
    requires Shape(g, rows, cols) && InGrid(rows, cols, c)
    ensures Count(Set(g, rows, cols, c, w), v) + (if At(g, rows, cols, c) == v then 1 else 0)
      == Count(g, v) + (if w == v then 1 else 0)
    decreases rows
  {
    var r := Set(g, rows, cols, c, w);
    var last := rows - 1;
    assert r[..last] == if c.0 == last then g[..last] else g[..last][c.0 := g[c.0][c.1 := w]];
    if c.0 == last {
      assert r[last] == g[last][c.1 := w];
    } else {
      CountSet(g[..last], last, cols, c, w, v);
      assert r[last] == g[last];
    }
  }

  /**
   * The neighbour test of `update`: a neighbour is skipped when its row is
   * negative or equal to `rows`, or its column negative or equal to `cols`.
   */
  predicate Skipped(rows: nat, cols: nat, n: Coord) {
    n.0 < 0 || n.0 == rows || n.1 < 0 || n.1 == cols
  }

  /** Around a cell inside the grid, a unit neighbour that is not skipped is inside the grid. */
  lemma KeptInside(rows: nat, cols: nat, c: Coord, o: Coord)
    requires InGrid(rows, cols, c) && Unit(o) && !Skipped(rows, cols, Near(c, o))
    ensures InGrid(rows, cols, Near(c, o))
  {
  }

  /**
   * The neighbours of `c` at the first `k` offsets of `NEXTS`, in order,
   * that are not skipped and are `CL_UNINFECTED` in `g`: what the inner
   * loop of `update` appends to the queue in its first `k` passes.
   */
  function Candidates(g: seq<seq<Cell>>, rows: nat, cols: nat, c: Coord, k: nat): (ns: seq<Coord>)
    requires Shape(g, rows, cols) && InGrid(rows, cols, c) && k <= |Nexts|
    ensures forall j :: 0 <= j < |ns| ==> InGrid(rows, cols, ns[j]) && At(g, rows, cols, ns[j]) == Uninfected
  {
    if k == 0 then [] else Candidates(g, rows, cols, c, k - 1) + Candidate(g, rows, cols, c, k - 1)
  }

  /** Pass `j` of the inner loop: the neighbour at offset `NEXTS[j]`, if it is kept and uninfected. */
  function Candidate(g: seq<seq<Cell>>, rows: nat, cols: nat, c: Coord, j: nat): (ns: seq<Coord>)
    requires Shape(g, rows, cols) && InGrid(rows, cols, c) && j < |Nexts|
    ensures forall i :: 0 <= i < |ns| ==>
      ns[i] == Near(c, Nexts[j]) && InGrid(rows, cols, ns[i]) && At(g, rows, cols, ns[i]) == Uninfected
  {
    var n := Near(c, Nexts[j]);
    if Skipped(rows, cols, n) then []
    else
      NextsUnit();
      KeptInside(rows, cols, c, Nexts[j]);
      if At(g, rows, cols, n) == Uninfected then [n] else []
  }

  /** Every position `Candidates` gives lies at one of the offsets from `c`. */
  lemma {:induction false} CandidatesNear(g: seq<seq<Cell>>, rows: nat, cols: nat, c: Coord, k: nat, n: Coord)
    requires Shape(g, rows, cols) && InGrid(rows, cols, c) && k <= |Nexts|
    requires n in Candidates(g, rows, cols, c, k)
    ensures exists j :: 0 <= j < k && n == Near(c, Nexts[j])
  {
    if n in Candidates(g, rows, cols, c, k - 1) {
      CandidatesNear(g, rows, cols, c, k - 1, n);
    } else {
      assert n == Near(c, Nexts[k - 1]);
    }
  }

  /** An offset whose neighbour lies past an edge queues nothing. */
  lemma SkipStep(g: seq<seq<Cell>>, rows: nat, cols: nat, c: Coord, k: nat, found: seq<Coord>)
    requires Shape(g, rows, cols) && InGrid(rows, cols, c) && k < |Nexts|
    requires found == Candidates(g, rows, cols, c, k) && Skipped(rows, cols, Near(c, Nexts[k]))
    ensures found == Candidates(g, rows, cols, c, k + 1)
  {
    assert found + [] == found;
  }

  /** An offset whose neighbour is not skipped is inside the grid, and is queued exactly when it is uninfected. */
  lemma KeepStep(g: seq<seq<Cell>>, rows: nat, cols: nat, c: Coord, k: nat, found: seq<Coord>)
    requires Shape(g, rows, cols) && InGrid(rows, cols, c) && k < |Nexts|
    requires found == Candidates(g, rows, cols, c, k) && !Skipped(rows, cols, Near(c, Nexts[k]))
    ensures InGrid(rows, cols, Near(c, Nexts[k]))
    ensures Candidates(g, rows, cols, c, k + 1) ==
      if At(g, rows, cols, Near(c, Nexts[k])) == Uninfected then found + [Near(c, Nexts[k])] else found
  {
    NextsUnit();
    KeptInside(rows, cols, c, Nexts[k]);
    assert found + [] == found;
  }

  /** `Candidates` over all eight offsets `NEXTS`. */
  function Neighbours(g: seq<seq<Cell>>, rows: nat, cols: nat, c: Coord): (ns: seq<Coord>)
    requires Shape(g, rows, cols) && InGrid(rows, cols, c)
    ensures AllInGrid(rows, cols, ns)
  {
    Candidates(g, rows, cols, c, |Nexts|)
  }

  /** Every queued position is inside the grid. */
  predicate AllInGrid(rows: nat, cols: nat, cs: seq<Coord>) {
    forall k :: 0 <= k < |cs| ==> InGrid(rows, cols, cs[k])
  }

  /**
   * The first loop of `update`: each popped position in turn is set to
   * `CL_INFECTED`, then its uninfected neighbours are queued. The result is
   * the grid and the queued neighbours, in order.
   */
  function Burn(g: seq<seq<Cell>>, rows: nat, cols: nat, popped: seq<Coord>): (r: (seq<seq<Cell>>, seq<Coord>))
    requires Shape(g, rows, cols) && AllInGrid(rows, cols, popped)
    ensures Shape(r.0, rows, cols) && AllInGrid(rows, cols, r.1)
    decreases |popped|
  {
    if popped == [] then (g, [])
    else
      var before := Burn(g, rows, cols, popped[..|popped| - 1]);
      var c := popped[|popped| - 1];
      var burnt := Set(before.0, rows, cols, c, Infected);
      (burnt, before.1 + Neighbours(burnt, rows, cols, c))
  }

  /**
   * The second loop of `update`: each queued neighbour in turn that is
   * still `CL_UNINFECTED` becomes `CL_SPREAD` and is queued again. The
   * result is the grid and the newly spreading positions, in order.
   */
  function Ignite(g: seq<seq<Cell>>, rows: nat, cols: nat, cs: seq<Coord>): (r: (seq<seq<Cell>>, seq<Coord>))
    requires Shape(g, rows, cols) && AllInGrid(rows, cols, cs)
    ensures Shape(r.0, rows, cols) && AllInGrid(rows, cols, r.1) && |r.1| <= |cs|
    decreases |cs|
  {
    if cs == [] then (g, [])
    else IgniteOne(Ignite(g, rows, cols, cs[..|cs| - 1]), rows, cols, cs[|cs| - 1])
  }

  /** One pass of the second loop: `c` catches if it is still `CL_UNINFECTED`. */
  function IgniteOne(before: (seq<seq<Cell>>, seq<Coord>), rows: nat, cols: nat, c: Coord): (seq<seq<Cell>>, seq<Coord>)
    requires Shape(before.0, rows, cols) && InGrid(rows, cols, c)
  {
    if At(before.0, rows, cols, c) == Uninfected then (Set(before.0, rows, cols, c, Spread), before.1 + [c])
    else before
  }

  /** The first loop's state after popping position `t`, burning it and queueing its neighbours. */
  lemma BurnAdvance(g: seq<seq<Cell>>, rows: nat, cols: nat, popped: seq<Coord>, t: nat,
                    before: (seq<seq<Cell>>, seq<Coord>), burnt: seq<seq<Cell>>, ns: seq<Coord>)
    requires Shape(g, rows, cols) && AllInGrid(rows, cols, popped) && t < |popped|
    requires before == Burn(g, rows, cols, popped[..t])
    requires burnt == Set(before.0, rows, cols, popped[t], Infected)
    requires ns == Neighbours(burnt, rows, cols, popped[t])
    ensures (burnt, before.1 + ns) == Burn(g, rows, cols, popped[..t + 1])
  {
    BurnStep(g, rows, cols, popped, t);
  }

  /** One more popped position: `Burn` unfolded once. */
  lemma BurnStep(g: seq<seq<Cell>>, rows: nat, cols: nat, ps: seq<Coord>, t: nat)
    requires Shape(g, rows, cols) && AllInGrid(rows, cols, ps) && t < |ps|
    ensures var before := Burn(g, rows, cols, ps[..t]);
      var burnt := Set(before.0, rows, cols, ps[t], Infected);
      Burn(g, rows, cols, ps[..t + 1]) == (burnt, before.1 + Neighbours(burnt, rows, cols, ps[t]))
  {
    assert ps[..t + 1][..t] == ps[..t];
  }

  /** Appending to a queue that already holds `a + b`. */
  lemma AppendAssoc(a: seq<Coord>, b: seq<Coord>, c: seq<Coord>)
    ensures a + b + c == a + (b + c)
  {
  }

  /** No position appears twice. */
  predicate Distinct(cs: seq<Coord>) {
    forall a, b :: 0 <= a < b < |cs| ==> cs[a] != cs[b]
  }

  /** `n` is at one of the eight offsets from some position of `popped`. */
  ghost predicate NextTo(popped: seq<Coord>, n: Coord) {
    exists c, o :: c in popped && o in Nexts && n == Near(c, o)
  }

  /**
   * After the first loop every popped position is `CL_INFECTED` and every
   * other cell is as it was.
   */
  lemma {:induction false} BurnCells(g: seq<seq<Cell>>, rows: nat, cols: nat, popped: seq<Coord>)
    requires Shape(g, rows, cols) && AllInGrid(rows, cols, popped)
    ensures forall c :: c in popped ==> At(Burn(g, rows, cols, popped).0, rows, cols, c) == Infected
    ensures forall c :: InGrid(rows, cols, c) && c !in popped ==>
      At(Burn(g, rows, cols, popped).0, rows, cols, c) == At(g, rows, cols, c)
    decreases |popped|
  {
    if popped != [] {
      var front := popped[..|popped| - 1];
      BurnCells(g, rows, cols, front);
      assert popped == front + [popped[|popped| - 1]];
    }
  }

  /** Every neighbour the first loop queues lies next to a popped position. */
  lemma {:induction false} BurnFound(g: seq<seq<Cell>>, rows: nat, cols: nat, popped: seq<Coord>)
    requires Shape(g, rows, cols) && AllInGrid(rows, cols, popped)
    ensures forall n :: n in Burn(g, rows, cols, popped).1 ==> NextTo(popped, n)
    decreases |popped|
  {
    if popped != [] {
      var front := popped[..|popped| - 1];
      var c := popped[|popped| - 1];
      BurnFound(g, rows, cols, front);
      var before := Burn(g, rows, cols, front);
      var ns := Neighbours(Set(before.0, rows, cols, c, Infected), rows, cols, c);
      assert Burn(g, rows, cols, popped).1 == before.1 + ns;
      forall n | n in before.1 + ns
        ensures NextTo(popped, n)
      {
        if n in before.1 {
          var d, o :| d in front && o in Nexts && n == Near(d, o);
          assert d in popped;
        } else {
          CandidatesNear(Set(before.0, rows, cols, c, Infected), rows, cols, c, |Nexts|, n);
          var j :| 0 <= j < |Nexts| && n == Near(c, Nexts[j]);
          assert c in popped && Nexts[j] in Nexts;
        }
      }
    }
  }

  /**
   * After the second loop the newly spreading positions are distinct,
   * were `CL_UNINFECTED` and are now `CL_SPREAD`; every other cell is as it
   * was; and the grid holds exactly that many fewer uninfected cells.
   */
  lemma {:induction false} IgniteEffect(g: seq<seq<Cell>>, rows: nat, cols: nat, cs: seq<Coord>)
    requires Shape(g, rows, cols) && AllInGrid(rows, cols, cs)
    ensures var (g2, lit) := Ignite(g, rows, cols, cs);
      Distinct(lit) && (forall c :: c in lit ==> c in cs && At(g, rows, cols, c) == Uninfected) &&
      (forall c :: InGrid(rows, cols, c) ==>
        At(g2, rows, cols, c) == if c in lit then Spread else At(g, rows, cols, c)) &&
      Count(g2, Uninfected) == Count(g, Uninfected) - |lit|
    decreases |cs|
  {
    if cs != [] {
      var front := cs[..|cs| - 1];
      var c := cs[|cs| - 1];
      IgniteEffect(g, rows, cols, front);
      var before := Ignite(g, rows, cols, front);
      assert cs == front + [c];
      if At(before.0, rows, cols, c) == Uninfected {
        CountSet(before.0, rows, cols, c, Spread, Uninfected);
        var lit := before.1 + [c];
        assert c !in before.1;
        forall a, b | 0 <= a < b < |lit|
          ensures lit[a] != lit[b]
        {
          if b == |lit| - 1 {
            assert lit[a] in before.1;
          }
        }
      }
    }
  }

  /**
   * What one `update` does to the grid, stated against the grid before it:
   * the popped positions end `CL_INFECTED`; the new spreaders are exactly
   * the cells that became `CL_SPREAD`, each once, each a neighbour inside
   * the grid of a popped position; every other cell is unchanged; and the
   * uninfected cells left after burning drop by the number of new spreaders.
   */
  lemma UpdateEffect(g: seq<seq<Cell>>, rows: nat, cols: nat, popped: seq<Coord>)
    requires Shape(g, rows, cols) && AllInGrid(rows, cols, popped)
    ensures var (g1, found) := Burn(g, rows, cols, popped);
      var (g2, lit) := Ignite(g1, rows, cols, found);
      (forall c :: c in popped ==> At(g2, rows, cols, c) == Infected) &&
      Distinct(lit) &&
      (forall c :: InGrid(rows, cols, c) ==>
        (c in lit <==> At(g2, rows, cols, c) == Spread && At(g, rows, cols, c) != Spread)) &&
      (forall c :: c in lit ==> NextTo(popped, c)) &&
      (forall c :: InGrid(rows, cols, c) && At(g2, rows, cols, c) != At(g, rows, cols, c) ==>
        c in popped || c in lit) &&
      Count(g2, Uninfected) == Count(g1, Uninfected) - |lit|
  {
    var (g1, found) := Burn(g, rows, cols, popped);
    BurnCells(g, rows, cols, popped);
    BurnFound(g, rows, cols, popped);
    IgniteEffect(g1, rows, cols, found);
  }

  /**
   * The `i < 0: i += rows` adjustment of `spread`, applied once: an index
   * from `-n` up to `n - 1` becomes the position Python's negative
   * indexing means, in `[0, n)` and equal to it modulo `n`; a
   * non-negative index is kept; one below `-n` stays negative.
   */
  function Wrap(i: int, n: nat): (r: int)
    ensures -(n as int) <= i < n ==> 0 <= r < n && (r - i) % n == 0
    ensures 0 <= i ==> r == i
    ensures i < -(n as int) ==> r < 0
  {
    if i < 0 then i + n else i
  }

  /** Python's `int(DENSITY * cols * rows)` with `DENSITY = .5`, for a non-negative size. */
  function HalfOf(cells: nat): (h: nat)
    ensures 2 * h <= cells < 2 * h + 2
  {
    cells / 2
  }

  class AutoMatrix {
    /** The rows of cells: the list itself. */
    var cells: seq<seq<Cell>>
    /** `n_spread`: how many queued positions the next `update` burns. */
    var nSpread: int
    /** `n_infected`: how many cells have burnt so far. */
    var nInfected: int
    /** `n_uninfected`: the uninfected count, lowered by `spread` and `update`. */
    var nUninfected: int
    /** `_spreader`, left end first. */
    var spreader: seq<Coord>
    /** `_rows` and `_cols`. */
    const rows: nat
    const cols: nat

    /** The grid has its size and the queue holds as many positions as `n_spread` says. */
    ghost predicate Valid()
      reads this
    {
      Shape(cells, rows, cols) && |spreader| == nSpread
    }

    /**
     * `AutoMatrix(rows, cols)`: all cells `CL_BLANK`, counters at zero
     * except `n_uninfected`, half the cell count, then the cells at the
     * positions `random.sample` picks set to `CL_UNINFECTED`; the picked
     * positions are the parameter `chosen`. The grid then holds exactly
     * `n_uninfected` uninfected cells.
     */
    constructor (rows: nat, cols: nat, chosen: seq<Coord>)
      requires |chosen| == HalfOf(rows * cols) && Distinct(chosen) && AllInGrid(rows, cols, chosen)
      ensures Valid() && this.rows == rows && this.cols == cols
      ensures nSpread == 0 && nInfected == 0 && spreader == [] && nUninfected == |chosen|
      ensures forall c :: InGrid(rows, cols, c) ==>
        At(cells, rows, cols, c) == if c in chosen then Uninfected else Blank
      ensures Count(cells, Uninfected) == nUninfected
    {
      var g := BlankGrid(rows, cols);
      BlankCount(rows, cols);
      assert chosen[..0] == [];
      for k := 0 to |chosen|
        invariant Placed(g, rows, cols, chosen[..k]) && Count(g, Uninfected) == k
      {
        PlaceStep(g, rows, cols, chosen, k);
        g := Set(g, rows, cols, chosen[k], Uninfected);
      }
      assert chosen[..|chosen|] == chosen;
      this.rows := rows;
      this.cols := cols;
      cells := g;
      nSpread := 0;
      nInfected := 0;
      nUninfected := HalfOf(rows * cols);
      spreader := [];
    }

    /**
     * `spread(i, j)`: a negative index is counted from the end once, the
     * counters move by one, and the position goes to the left end of the
     * queue. Neither the cell nor the bounds are checked.
     */
    method SpreadAt(i: int, j: int)
      modifies this
      ensures spreader == [(Wrap(i, rows), Wrap(j, cols))] + old(spreader)
      ensures nSpread == old(nSpread) + 1 && nUninfected == old(nUninfected) - 1
      ensures cells == old(cells) && nInfected == old(nInfected)
    {
      var i, j := i, j;
      if i < 0 {
        i := i + rows;
      }
      if j < 0 {
        j := j + cols;
      }
      nSpread := nSpread + 1;
      nUninfected := nUninfected - 1;
      spreader := [(i, j)] + spreader;
    }

    /**
     * `update()`: burn the `n_spread` queued positions, queueing their
     * uninfected neighbours, then turn those neighbours that are still
     * uninfected into the next round's spreaders. The new state is what
     * `Burn` and `Ignite` compute; `UpdateEffect` says what that means.
     */
    method Update()
      requires Valid() && AllInGrid(rows, cols, spreader)
      modifies this
      ensures Valid() && AllInGrid(rows, cols, spreader)
      ensures nInfected == old(nInfected) + old(nSpread)
      ensures var (g1, found) := Burn(old(cells), rows, cols, old(spreader));
        var (g2, lit) := Ignite(g1, rows, cols, found);
        cells == g2 && spreader == lit && nSpread == |lit| && nUninfected == old(nUninfected) - |lit|
    {
      nInfected := nInfected + nSpread;
      var i := BurnQueue();
      nSpread := 0;
      IgniteQueue(i);
      nUninfected := nUninfected - nSpread;
    }

    /**
     * The first loop of `update`: `n_spread` times, pop the left end, set
     * it `CL_INFECTED` and queue its uninfected neighbours at the right end.
     * Returns how many neighbours were queued (`i`).
     */
    method BurnQueue() returns (i: nat)
      requires Valid() && AllInGrid(rows, cols, spreader)
      modifies this`cells, this`spreader
      ensures (cells, spreader) == Burn(old(cells), rows, cols, old(spreader)) && i == |spreader|
    {
      i := 0;
      ghost var popped := spreader;
      ghost var found: seq<Coord> := [];
      ghost var g := cells;
      for t := 0 to nSpread
        invariant nSpread == |popped| && AllInGrid(rows, cols, popped)
        invariant spreader == popped[t..] + found && i == |found|
        invariant (cells, found) == Burn(g, rows, cols, popped[..t])
      {
        QueuePop(popped, t, found);
        var coord := spreader[0];
        spreader := spreader[1..];
        ghost var before := (cells, found);
        cells := Set(cells, rows, cols, coord, Infected);
        var added := QueueNeighbours(coord);
        i := i + added;
        ghost var ns := Neighbours(cells, rows, cols, coord);
        AppendAssoc(popped[t + 1..], found, ns);
        BurnAdvance(g, rows, cols, popped, t, before, cells, ns);
        found := found + ns;
      }
      assert popped[..nSpread] == popped && popped[nSpread..] == [];
      assert spreader == found;
      assert (cells, found) == Burn(g, rows, cols, popped);
    }

    /**
     * The inner loop of `update`: for each offset, skip a neighbour on the
     * far side of an edge, and queue it at the right end when it is
     * `CL_UNINFECTED`. Returns how many were queued.
     */
    method QueueNeighbours(coord: Coord) returns (added: nat)
      requires Shape(cells, rows, cols) && InGrid(rows, cols, coord)
      modifies this`spreader
      ensures spreader == old(spreader) + Neighbours(cells, rows, cols, coord)
      ensures added == |Neighbours(cells, rows, cols, coord)|
    {
      added := 0;
      ghost var start := spreader;
      ghost var found: seq<Coord> := [];
      var g := cells;
      for k := 0 to |Nexts|
        invariant found == Candidates(g, rows, cols, coord, k)
        invariant spreader == start + found && added == |found|
      {
        var next := Near(coord, Nexts[k]);
        if next.0 < 0 || next.0 == rows || next.1 < 0 || next.1 == cols {
          SkipStep(g, rows, cols, coord, k, found);
          continue;
        }
        KeepStep(g, rows, cols, coord, k, found);
        if g[next.0][next.1] == Uninfected {
          spreader := spreader + [next];
          added := added + 1;
          found := found + [next];
        }
      }
    }

    /**
     * The second loop of `update`: `i` times, pop the left end; when it is
     * still `CL_UNINFECTED`, set it `CL_SPREAD`, queue it again at the right
     * end and count it in `n_spread`.
     */
    method IgniteQueue(i: nat)
      requires Shape(cells, rows, cols) && AllInGrid(rows, cols, spreader) && i == |spreader| && nSpread == 0
      modifies this`cells, this`spreader, this`nSpread
      ensures (cells, spreader) == Ignite(old(cells), rows, cols, old(spreader)) && nSpread == |spreader|
    {
      ghost var found := spreader;
      ghost var g := cells;
      ghost var lit: seq<Coord> := [];
      for t := 0 to i
        invariant spreader == found[t..] + lit && nSpread == |lit|
        invariant (cells, lit) == Ignite(g, rows, cols, found[..t])
      {
        QueuePop(found, t, lit);
        var coord := spreader[0];
        spreader := spreader[1..];
        assert found[..t + 1][..t] == found[..t];
        assert Ignite(g, rows, cols, found[..t + 1]) == IgniteOne((cells, lit), rows, cols, coord);
        if cells[coord.0][coord.1] == Uninfected {
          cells := Set(cells, rows, cols, coord, Spread);
          spreader := spreader + [coord];
          nSpread := nSpread + 1;
          lit := lit + [coord];
        }
      }
      assert found[..i] == found;
      assert spreader == lit;
    }
  }

  /** Popping the head of what is left of the queue, with the requeued positions behind it. */
  lemma QueuePop(found: seq<Coord>, t: nat, lit: seq<Coord>)
    requires t < |found|
    ensures (found[t..] + lit)[0] == found[t] && (found[t..] + lit)[1..] == found[t + 1..] + lit
  {
  }

  /** `[[CL_BLANK] * cols for _ in range(rows)]`. */
  function BlankGrid(rows: nat, cols: nat): (g: seq<seq<Cell>>)
    ensures Shape(g, rows, cols)
    ensures forall c :: InGrid(rows, cols, c) ==> At(g, rows, cols, c) == Blank
  {
    seq(rows, _ => seq(cols, _ => Blank))
  }

  /** The cells of `cs` are uninfected and every other cell is blank. */
  ghost predicate Placed(g: seq<seq<Cell>>, rows: nat, cols: nat, cs: seq<Coord>) {
    Shape(g, rows, cols) &&
    forall c :: InGrid(rows, cols, c) ==> At(g, rows, cols, c) == if c in cs then Uninfected else Blank
  }

  /** Placing the next chosen position: it was blank, so one more cell is uninfected. */
  lemma PlaceStep(g: seq<seq<Cell>>, rows: nat, cols: nat, chosen: seq<Coord>, k: nat)
    requires Distinct(chosen) && AllInGrid(rows, cols, chosen) && k < |chosen|
    requires Placed(g, rows, cols, chosen[..k]) && Count(g, Uninfected) == k
    ensures Placed(Set(g, rows, cols, chosen[k], Uninfected), rows, cols, chosen[..k + 1])
    ensures Count(Set(g, rows, cols, chosen[k], Uninfected), Uninfected) == k + 1
  {
    var c := chosen[k];
    assert c !in chosen[..k];
    CountSet(g, rows, cols, c, Uninfected, Uninfected);
    assert chosen[..k + 1] == chosen[..k] + [c];
  }

  /** An all-blank grid holds no uninfected cell. */
  lemma {:induction false} BlankCount(rows: nat, cols: nat)
    ensures Count(BlankGrid(rows, cols), Uninfected) == 0
    decreases rows
  {
    var g := BlankGrid(rows, cols);
    if rows > 0 {
      BlankCount(rows - 1, cols);
      assert g[..rows - 1] == BlankGrid(rows - 1, cols);
      assert Uninfected !in multiset(g[rows - 1]);
    }
  }
}
