/**
 * The pure part of what an ant sees and decides: torus wrapping, the eight
 * neighbours of a cell (World.get_environment), numpy-style boolean masks,
 * the toroidal Chebyshev distance and the candidate indices among which
 * Ant.choose_position picks at random.
 */
module Neighbourhood {
  import opened Cells

  type Coord = (int, int)

  predicate InGrid(size: int, p: Coord) {
    0 <= p.0 < size && 0 <= p.1 < size
  }

  function Abs(v: int): nat {
    if v < 0 then -v else v
  }

  function Min(a: int, b: int): int {
    if a <= b then a else b
  }

  function Max(a: int, b: int): int {
    if a >= b then a else b
  }

  // ---------------------------------------------------------------------------
  // Torus wrapping
  // ---------------------------------------------------------------------------

  /** The wrap of move_ant: add or subtract the size once. */
  function WrapOnce(v: int, size: int): (r: int)
    requires 0 < size && -size <= v < 2 * size
    ensures 0 <= r < size
    ensures r == v || r == v + size || r == v - size
  {
    if v < 0 then v + size
    else if v >= size then v - size
    else v
  }

  function Wrap(size: int, p: Coord): (r: Coord)
    requires 0 < size && -size <= p.0 < 2 * size && -size <= p.1 < 2 * size
    ensures InGrid(size, r)
  {
    (WrapOnce(p.0, size), WrapOnce(p.1, size))
  }

  /** A coordinate already on the grid is left where it is. */
  lemma WrapInGrid(size: int, p: Coord)
    requires 0 < size && InGrid(size, p)
    ensures Wrap(size, p) == p
  {
  }

  // ---------------------------------------------------------------------------
  // The eight neighbours
  // ---------------------------------------------------------------------------

  /** The 3x3 offsets in row-major order with the centre (index 4) removed. */
  const OFFSETS: seq<Coord> := [(-1, -1), (-1, 0), (-1, 1), (0, -1), (0, 1), (1, -1), (1, 0), (1, 1)]

  /** Offset number i is cell i of the row-major 3x3 block, skipping its centre. */
  lemma OffsetsAreRowMajor(i: int)
    requires 0 <= i < 8
    ensures var k := if i < 4 then i else i + 1;
            OFFSETS[i] == (k / 3 - 1, k % 3 - 1)
  {
  }

  /**
   * get_environment's coordinates: x-1, x, x+1 and y-1, y, y+1, each wrapped
   * on one side, laid out as a 3x3 block in row-major order, centre deleted.
   */
  function Neighbours(size: int, x: int, y: int): (r: seq<Coord>)
    requires 0 < size && 0 <= x < size && 0 <= y < size
    ensures |r| == 8
    ensures forall i | 0 <= i < 8 :: InGrid(size, r[i])
  {
    var xMinus := if x - 1 < 0 then x - 1 + size else x - 1;
    var xPlus := if x + 1 >= size then x + 1 - size else x + 1;
    var yMinus := if y - 1 < 0 then y - 1 + size else y - 1;
    var yPlus := if y + 1 >= size then y + 1 - size else y + 1;
    var xs := [xMinus, xMinus, xMinus, x, x, x, xPlus, xPlus, xPlus];
    var ys := [yMinus, y, yPlus, yMinus, y, yPlus, yMinus, y, yPlus];
    var xs', ys' := xs[..4] + xs[5..], ys[..4] + ys[5..];
    assert xs' == [xMinus, xMinus, xMinus, x, x, xPlus, xPlus, xPlus];
    assert ys' == [yMinus, y, yPlus, yMinus, yPlus, yMinus, y, yPlus];
    seq(8, i requires 0 <= i < 8 => (xs'[i], ys'[i]))
  }

  /** Neighbour i is the cell at offset i, wrapped once around the torus. */
  lemma NeighboursAreOffsets(size: int, x: int, y: int, i: int)
    requires 0 < size && 0 <= x < size && 0 <= y < size && 0 <= i < 8
    ensures Neighbours(size, x, y)[i] == Wrap(size, (x + OFFSETS[i].0, y + OFFSETS[i].1))
  {
    if i < 4 {
      NeighbourRowsLow(size, x, y, i);
    } else {
      NeighbourRowsHigh(size, x, y, i);
    }
  }

  lemma NeighbourRowsLow(size: int, x: int, y: int, i: int)
    requires 0 < size && 0 <= x < size && 0 <= y < size && 0 <= i < 4
    ensures Neighbours(size, x, y)[i] == Wrap(size, (x + OFFSETS[i].0, y + OFFSETS[i].1))
  {
    var n := Neighbours(size, x, y);
    if i == 0 {
      assert n[0] == Wrap(size, (x - 1, y - 1));
    } else if i == 1 {
      assert n[1] == Wrap(size, (x - 1, y));
    } else if i == 2 {
      assert n[2] == Wrap(size, (x - 1, y + 1));
    } else {
      assert n[3] == Wrap(size, (x, y - 1));
    }
  }

  lemma NeighbourRowsHigh(size: int, x: int, y: int, i: int)
    requires 0 < size && 0 <= x < size && 0 <= y < size && 4 <= i < 8
    ensures Neighbours(size, x, y)[i] == Wrap(size, (x + OFFSETS[i].0, y + OFFSETS[i].1))
  {
    var n := Neighbours(size, x, y);
    if i == 4 {
      assert n[4] == Wrap(size, (x, y + 1));
    } else if i == 5 {
      assert n[5] == Wrap(size, (x + 1, y - 1));
    } else if i == 6 {
      assert n[6] == Wrap(size, (x + 1, y));
    } else {
      assert n[7] == Wrap(size, (x + 1, y + 1));
    }
  }

  /** On a grid of side at least 3 no neighbour is the cell itself. */
  lemma NeighboursExcludeSelf(size: int, x: int, y: int, i: int)
    requires 3 <= size && 0 <= x < size && 0 <= y < size && 0 <= i < 8
    ensures Neighbours(size, x, y)[i] != (x, y)
  {
    var n := Neighbours(size, x, y);
    NeighboursAreOffsets(size, x, y, i);
    assert OFFSETS[i].0 != 0 || OFFSETS[i].1 != 0;
    if OFFSETS[i].0 != 0 {
      assert n[i].0 == WrapOnce(x + OFFSETS[i].0, size);
    } else {
      assert n[i].1 == WrapOnce(y + OFFSETS[i].1, size);
    }
  }

  /** Stepping left from column 0 lands on column size-1, and right from size-1 on 0. */
  lemma TorusWrapsAtEdges(size: int, y: int)
    requires 3 <= size && 0 <= y < size
    ensures Neighbours(size, 0, y)[1] == (size - 1, y)
    ensures Neighbours(size, size - 1, y)[6] == (0, y)
  {
    NeighboursAreOffsets(size, 0, y, 1);
    NeighboursAreOffsets(size, size - 1, y, 6);
  }

  // ---------------------------------------------------------------------------
  // Boolean masks over the neighbourhood (numpy's ==, np.where, .max, .min)
  // ---------------------------------------------------------------------------

  /** vals == v, elementwise: over cell codes, smells or distances. */
  function Mask<T(==)>(vals: seq<T>, v: T): (m: seq<bool>)
    ensures |m| == |vals|
    ensures forall i | 0 <= i < |vals| :: m[i] == (vals[i] == v)
  {
    seq(|vals|, i requires 0 <= i < |vals| => vals[i] == v)
  }

  /** np.where(mask)[0], as the set of indices the random choice ranges over. */
  function Where(mask: seq<bool>): (s: set<int>)
    ensures forall i :: i in s <==> 0 <= i < |mask| && mask[i]
  {
    set i | 0 <= i < |mask| && mask[i]
  }

  /** The range of np.random.randint(0, n). */
  function Indices(n: nat): (s: set<int>)
    ensures forall i :: i in s <==> 0 <= i < n
  {
    Where(seq(n, _ => true))
  }

  /** vals[mask].max() */
  function MaxOver(vals: seq<real>, mask: seq<bool>): (m: real)
    requires |vals| == |mask| && true in mask
    ensures exists i :: 0 <= i < |vals| && mask[i] && vals[i] == m
    ensures forall i :: 0 <= i < |vals| && mask[i] ==> vals[i] <= m
    decreases |vals|
  {
    var n := |vals| - 1;
    if true !in mask[..n] then
      assert mask[n];
      vals[n]
    else
      var m0 := MaxOver(vals[..n], mask[..n]);
      if mask[n] && vals[n] > m0 then vals[n] else m0
  }

  /** vals[mask].min() */
  function MinOver(vals: seq<int>, mask: seq<bool>): (m: int)
    requires |vals| == |mask| && true in mask
    ensures exists i :: 0 <= i < |vals| && mask[i] && vals[i] == m
    ensures forall i :: 0 <= i < |vals| && mask[i] ==> m <= vals[i]
    decreases |vals|
  {
    var n := |vals| - 1;
    if true !in mask[..n] then
      assert mask[n];
      vals[n]
    else
      var m0 := MinOver(vals[..n], mask[..n]);
      if mask[n] && vals[n] < m0 then vals[n] else m0
  }

  // ---------------------------------------------------------------------------
  // Distances to the colony centre
  // ---------------------------------------------------------------------------

  /** One axis of the toroidal Chebyshev distance: the least of the direct, wrap-left and wrap-right gaps. */
  function AxisDistance(a: int, c: int, size: int): (r: int)
    ensures 0 <= r && r <= Abs(a - c) && r <= Abs(a + size - c) && r <= Abs(a - size - c)
    ensures r == Abs(a - c) || r == Abs(a + size - c) || r == Abs(a - size - c)
  {
    Min(Min(Abs(a - c), Abs(a + size - c)), Abs(a - size - c))
  }

  /** On the grid, the axis distance is the shorter way round the torus, in either direction. */
  lemma AxisDistanceIsToroidal(a: int, c: int, size: int)
    requires 0 <= a < size && 0 <= c < size
    ensures AxisDistance(a, c, size) == Min(Abs(a - c), size - Abs(a - c))
    ensures AxisDistance(a, c, size) == AxisDistance(c, a, size)
    ensures 0 <= AxisDistance(a, c, size) <= size / 2
  {
  }

  /**
   * The axis distance as the source computes it: np.minimum with three
   * arrays treats the third as its output buffer, so only the direct and the
   * wrap-left gaps are compared.
   */
  function AxisDistanceAsWritten(a: int, c: int, size: int): (r: int)
    ensures 0 <= r && r <= Abs(a - c) && r <= Abs(a + size - c)
    ensures r == Abs(a - c) || r == Abs(a + size - c)
  {
    Min(Abs(a - c), Abs(a + size - c))
  }

  /** As written, the distance only wraps when the cell lies before the centre. */
  lemma AsWrittenWrapsOneWay(a: int, c: int, size: int)
    requires 0 <= a < size && 0 <= c < size
    ensures AxisDistanceAsWritten(a, c, size) ==
            if a >= c then a - c else AxisDistance(a, c, size)
  {
  }

  /**
   * On the default 40-cell grid, red centre column 13, an ant returning from
   * column 35 sees column 34 as nearer than column 36 when the distance is
   * taken as written, although 36 is nearer round the torus.
   */
  lemma AsWrittenPrefersTheLongWay()
    ensures AxisDistanceAsWritten(34, 13, 40) < AxisDistanceAsWritten(36, 13, 40)
    ensures AxisDistance(36, 13, 40) < AxisDistance(34, 13, 40)
  {
  }

  /** Toroidal Chebyshev distance (Lab7.py:374-383, with the three-way minimum). */
  function Chebyshev(p: Coord, center: Coord, size: int): (r: int)
    ensures AxisDistance(p.0, center.0, size) <= r && AxisDistance(p.1, center.1, size) <= r
    ensures r == AxisDistance(p.0, center.0, size) || r == AxisDistance(p.1, center.1, size)
  {
    Max(AxisDistance(p.0, center.0, size), AxisDistance(p.1, center.1, size))
  }

  /** The arrival test of the returning ant: a plain, non-toroidal Chebyshev distance of at most 1. */
  predicate NearCentre(p: Coord, center: Coord)
    ensures NearCentre(p, center) <==> -1 <= p.0 - center.0 <= 1 && -1 <= p.1 - center.1 <= 1
  {
    Max(Abs(p.0 - center.0), Abs(p.1 - center.1)) <= 1
  }

  /**
   * The arrival test does not wrap: on a 4-cell grid the cell (0, 2) is one
   * step round the torus from (3, 2), yet it does not count as next to it.
   */
  lemma NearCentreIgnoresWrap()
    ensures Chebyshev((0, 2), (3, 2), 4) == 1 && !NearCentre((0, 2), (3, 2))
  {
  }

  // ---------------------------------------------------------------------------
  // Candidate indices of choose_position
  // ---------------------------------------------------------------------------

  /** What get_environment returns: neighbour coordinates, their cell codes and smells. */
  datatype Env = Env(coords: seq<Coord>, cells: seq<Cell>, smells: seq<real>) {
    predicate WellFormed() {
      |coords| == |cells| == |smells|
    }
  }

  /** a & b */
  function And(a: seq<bool>, b: seq<bool>): (m: seq<bool>)
    requires |a| == |b|
    ensures |m| == |a|
    ensures forall i | 0 <= i < |a| :: m[i] == (a[i] && b[i])
  {
    seq(|a|, i requires 0 <= i < |a| => a[i] && b[i])
  }

  /** A mask has a true entry exactly when the masked property holds somewhere. */
  lemma MaskHit<T>(vals: seq<T>, v: T)
    ensures (true in Mask(vals, v)) == (v in vals)
  {
    var m := Mask(vals, v);
    if v in vals {
      var j :| 0 <= j < |vals| && vals[j] == v;
      assert m[j];
    }
  }

  /** Wandering: resources first, then opponents, then the best-smelling empty cells, else anything. */
  function WanderChoices(breed: Breed, cells: seq<Cell>, smells: seq<real>): (r: set<int>)
    requires |cells| == |smells|
    ensures forall i | i in r :: 0 <= i < |cells|
  {
    var resources := Mask(cells, Resource);
    if true in resources then Where(resources)
    else
      var opponents := Mask(cells, Opposite(breed).value);
      if true in opponents then Where(opponents)
      else
        var empty := Mask(cells, Empty);
        if true in empty then Where(Mask(smells, MaxOver(smells, empty)))
        else Indices(|cells|)
  }

  function Distances(coords: seq<Coord>, center: Coord, size: int): (d: seq<int>)
    ensures |d| == |coords|
    ensures forall i | 0 <= i < |coords| :: d[i] == Chebyshev(coords[i], center, size)
  {
    seq(|coords|, i requires 0 <= i < |coords| => Chebyshev(coords[i], center, size))
  }

  /** distances == distances[empty].min(): some cell, an empty one at least, is in it. */
  function NearestMask(distances: seq<int>, empty: seq<bool>): (m: seq<bool>)
    requires |distances| == |empty| && true in empty
    ensures |m| == |distances|
    ensures forall i | 0 <= i < |m| :: m[i] == (distances[i] == MinOver(distances, empty))
    ensures true in m
  {
    var m := Mask(distances, MinOver(distances, empty));
    var j :| 0 <= j < |distances| && empty[j] && distances[j] == MinOver(distances, empty);
    assert m[j];
    m
  }

  /**
   * Among the neighbours at the least distance reached by an empty cell (the
   * mask itself is not limited to empty cells), those with the strongest smell
   * when that smell is positive, else all of them.
   */
  function NearestChoices(distances: seq<int>, cells: seq<Cell>, smells: seq<real>): (r: set<int>)
    requires |distances| == |cells| == |smells| && true in Mask(cells, Empty)
    ensures forall i | i in r :: 0 <= i < |cells|
  {
    var distancesMask := NearestMask(distances, Mask(cells, Empty));
    var best := MaxOver(smells, distancesMask);
    if best > 0.0 then Where(And(Mask(smells, best), distancesMask))
    else Where(distancesMask)
  }

  /** Returning, away from the centre: head for the centre if any neighbour is empty, else anywhere. */
  function ReturnChoices(center: Coord, size: int, env: Env): (r: set<int>)
    requires env.WellFormed()
    ensures forall i | i in r :: 0 <= i < |env.cells|
  {
    var empty := Mask(env.cells, Empty);
    if true in empty then NearestChoices(Distances(env.coords, center, size), env.cells, env.smells)
    else Indices(|env.cells|)
  }

  /** The indices choose_position may pick, in the ant's state at cell `at`. */
  function Candidates(state: AntState, breed: Breed, at: Coord, center: Coord, size: int, env: Env): (r: set<int>)
    requires env.WellFormed()
    ensures forall i | i in r :: 0 <= i < |env.cells|
  {
    match state
    case WanderAndFight => WanderChoices(breed, env.cells, env.smells)
    case FoundResource =>
      if NearCentre(at, center) then Indices(|env.cells|)
      else ReturnChoices(center, size, env)
  }

  // ---------------------------------------------------------------------------
  // What the candidate sets mean
  // ---------------------------------------------------------------------------

  /** vals[i] equals vals[mask].max() exactly when it bounds, and is one of, the masked values. */
  lemma IsMaxOver(vals: seq<real>, mask: seq<bool>, i: int)
    requires |vals| == |mask| && true in mask && 0 <= i < |vals|
    ensures vals[i] == MaxOver(vals, mask) <==>
      (forall j | 0 <= j < |vals| && mask[j] :: vals[j] <= vals[i]) &&
      (exists j | 0 <= j < |vals| && mask[j] :: vals[j] == vals[i])
  {
    var best := MaxOver(vals, mask);
    var w :| 0 <= w < |vals| && mask[w] && vals[w] == best;
    if (forall j | 0 <= j < |vals| && mask[j] :: vals[j] <= vals[i]) &&
       (exists j | 0 <= j < |vals| && mask[j] :: vals[j] == vals[i]) {
      var j :| 0 <= j < |vals| && mask[j] && vals[j] == vals[i];
      assert vals[w] <= vals[i] && vals[j] <= best;
    }
  }

  /** vals[i] equals vals[mask].min() exactly when it is bounded by, and is one of, the masked values. */
  lemma IsMinOver(vals: seq<int>, mask: seq<bool>, i: int)
    requires |vals| == |mask| && true in mask && 0 <= i < |vals|
    ensures vals[i] == MinOver(vals, mask) <==>
      (forall j | 0 <= j < |vals| && mask[j] :: vals[i] <= vals[j]) &&
      (exists j | 0 <= j < |vals| && mask[j] :: vals[j] == vals[i])
  {
    var least := MinOver(vals, mask);
    var w :| 0 <= w < |vals| && mask[w] && vals[w] == least;
    if (forall j | 0 <= j < |vals| && mask[j] :: vals[i] <= vals[j]) &&
       (exists j | 0 <= j < |vals| && mask[j] :: vals[j] == vals[i]) {
      var j :| 0 <= j < |vals| && mask[j] && vals[j] == vals[i];
      assert vals[i] <= vals[w] && least <= vals[j];
    }
  }

  /** The wandering priority, stated without the masks. */
  lemma WanderChoice(breed: Breed, cells: seq<Cell>, smells: seq<real>, i: int)
    requires |cells| == |smells|
    ensures i in WanderChoices(breed, cells, smells) <==>
      0 <= i < |cells| &&
      if Resource in cells then cells[i] == Resource
      else if Opposite(breed).value in cells then cells[i] == Opposite(breed).value
      else if Empty in cells then
        (forall j | 0 <= j < |cells| && cells[j] == Empty :: smells[j] <= smells[i]) &&
        (exists j | 0 <= j < |cells| && cells[j] == Empty :: smells[j] == smells[i])
      else true
  {
    MaskHit(cells, Resource);
    MaskHit(cells, Opposite(breed).value);
    MaskHit(cells, Empty);
    if Resource !in cells && Opposite(breed).value !in cells && Empty in cells && 0 <= i < |cells| {
      var empty := Mask(cells, Empty);
      IsMaxOver(smells, empty, i);
      assert (forall j | 0 <= j < |smells| && empty[j] :: smells[j] <= smells[i]) <==>
             (forall j | 0 <= j < |cells| && cells[j] == Empty :: smells[j] <= smells[i]);
      assert (exists j | 0 <= j < |smells| && empty[j] :: smells[j] == smells[i]) <==>
             (exists j | 0 <= j < |cells| && cells[j] == Empty :: smells[j] == smells[i]) by {
        if exists j | 0 <= j < |cells| && cells[j] == Empty :: smells[j] == smells[i] {
          var j :| 0 <= j < |cells| && cells[j] == Empty && smells[j] == smells[i];
          assert empty[j];
        }
      }
    }
  }

  /** When a wandering ant picks among all eight, every neighbour is of its own breed. */
  lemma WanderFallbackIsOwnBreed(breed: Breed, cells: seq<Cell>)
    requires Resource !in cells && Opposite(breed).value !in cells && Empty !in cells
    ensures forall j | 0 <= j < |cells| :: cells[j] == breed
  {
    forall j | 0 <= j < |cells| ensures cells[j] == breed {
      assert cells[j] in cells;
    }
  }

  /**
   * A wandering ant with an empty neighbour may still pick a cell of its own
   * breed: only the smell is compared, not the cell's content.
   */
  lemma WanderMayPickOwnBreed()
    ensures var cells := [Empty, Red, Red, Red, Red, Red, Red, Red];
            var smells := [0.0, 0.0, 0.0, 0.0, 0.0, 0.0, 0.0, 0.0];
            1 in WanderChoices(Red, cells, smells) && cells[1] == Red
  {
    var cells := [Empty, Red, Red, Red, Red, Red, Red, Red];
    var smells := [0.0, 0.0, 0.0, 0.0, 0.0, 0.0, 0.0, 0.0];
    WanderChoice(Red, cells, smells, 1);
    assert cells[0] == Empty;
  }

  /** Cell i is at the least distance an empty neighbour reaches. */
  ghost predicate Nearest(d: seq<int>, cells: seq<Cell>, i: int)
    requires |d| == |cells| && 0 <= i < |d|
  {
    (forall j | 0 <= j < |cells| && cells[j] == Empty :: d[i] <= d[j]) &&
    (exists j | 0 <= j < |cells| && cells[j] == Empty :: d[j] == d[i])
  }

  /** Among the cells as near as cell i, none smells stronger, whenever one of them smells at all. */
  ghost predicate Strongest(d: seq<int>, smells: seq<real>, i: int)
    requires |d| == |smells| && 0 <= i < |d|
  {
    (exists j | 0 <= j < |d| && d[j] == d[i] :: smells[j] > 0.0) ==>
      forall j | 0 <= j < |d| && d[j] == d[i] :: smells[j] <= smells[i]
  }

  lemma NearestIsMin(d: seq<int>, cells: seq<Cell>, i: int)
    requires |d| == |cells| && 0 <= i < |d| && true in Mask(cells, Empty)
    ensures Nearest(d, cells, i) <==> d[i] == MinOver(d, Mask(cells, Empty))
  {
    var empty := Mask(cells, Empty);
    IsMinOver(d, empty, i);
    if exists j | 0 <= j < |cells| && cells[j] == Empty :: d[j] == d[i] {
      var j :| 0 <= j < |cells| && cells[j] == Empty && d[j] == d[i];
      assert empty[j];
    }
  }

  lemma StrongestIsBest(d: seq<int>, smells: seq<real>, mask: seq<bool>, i: int)
    requires |d| == |smells| == |mask| && 0 <= i < |d| && mask[i]
    requires forall j | 0 <= j < |d| :: mask[j] == (d[j] == d[i])
    ensures var best := MaxOver(smells, mask);
      && ((exists j | 0 <= j < |d| && d[j] == d[i] :: smells[j] > 0.0) <==> best > 0.0)
      && ((forall j | 0 <= j < |d| && d[j] == d[i] :: smells[j] <= smells[i]) <==> smells[i] == best)
  {
    var best := MaxOver(smells, mask);
    IsMaxOver(smells, mask, i);
    if best > 0.0 {
      var j :| 0 <= j < |smells| && mask[j] && smells[j] == best;
      assert d[j] == d[i] && smells[j] > 0.0;
    }
  }

  /** The choice among distance-minimal cells, stated without the masks. */
  lemma NearestChoice(d: seq<int>, cells: seq<Cell>, smells: seq<real>, i: int)
    requires |d| == |cells| == |smells| && true in Mask(cells, Empty)
    ensures i in NearestChoices(d, cells, smells) <==>
      0 <= i < |cells| && Nearest(d, cells, i) && Strongest(d, smells, i)
  {
    if 0 <= i < |cells| {
      var distancesMask := NearestMask(d, Mask(cells, Empty));
      NearestIsMin(d, cells, i);
      if distancesMask[i] {
        StrongestIsBest(d, smells, distancesMask, i);
      }
    }
  }

  /** The returning rule, stated without the masks. */
  lemma ReturnChoice(center: Coord, size: int, env: Env, i: int)
    requires env.WellFormed()
    ensures var d := Distances(env.coords, center, size);
      i in ReturnChoices(center, size, env) <==>
      0 <= i < |env.cells| &&
      (Empty in env.cells ==> Nearest(d, env.cells, i) && Strongest(d, env.smells, i))
  {
    MaskHit(env.cells, Empty);
    if Empty in env.cells {
      NearestChoice(Distances(env.coords, center, size), env.cells, env.smells, i);
    }
  }

  lemma WanderNonEmpty(breed: Breed, cells: seq<Cell>, smells: seq<real>)
    requires |cells| == |smells| && |cells| > 0
    ensures exists i :: i in WanderChoices(breed, cells, smells)
  {
    var resources := Mask(cells, Resource);
    var opponents := Mask(cells, Opposite(breed).value);
    var empty := Mask(cells, Empty);
    if true in resources {
      var j :| 0 <= j < |cells| && resources[j];
      assert j in WanderChoices(breed, cells, smells);
    } else if true in opponents {
      var j :| 0 <= j < |cells| && opponents[j];
      assert j in WanderChoices(breed, cells, smells);
    } else if true in empty {
      var best := MaxOver(smells, empty);
      var j :| 0 <= j < |smells| && empty[j] && smells[j] == best;
      assert Mask(smells, best)[j];
      assert j in WanderChoices(breed, cells, smells);
    } else {
      assert 0 in WanderChoices(breed, cells, smells);
    }
  }

  lemma NearestNonEmpty(d: seq<int>, cells: seq<Cell>, smells: seq<real>)
    requires |d| == |cells| == |smells| && true in Mask(cells, Empty)
    ensures exists i :: i in NearestChoices(d, cells, smells)
  {
    var distancesMask := NearestMask(d, Mask(cells, Empty));
    var best := MaxOver(smells, distancesMask);
    var j :| 0 <= j < |smells| && distancesMask[j] && smells[j] == best;
    assert And(Mask(smells, best), distancesMask)[j];
    assert j in NearestChoices(d, cells, smells);
  }

  lemma ReturnNonEmpty(center: Coord, size: int, env: Env)
    requires env.WellFormed() && |env.cells| > 0
    ensures exists i :: i in ReturnChoices(center, size, env)
  {
    if true in Mask(env.cells, Empty) {
      NearestNonEmpty(Distances(env.coords, center, size), env.cells, env.smells);
      assert ReturnChoices(center, size, env) == NearestChoices(Distances(env.coords, center, size), env.cells, env.smells);
    } else {
      assert 0 in ReturnChoices(center, size, env);
    }
  }

  /** np.random.choice is never handed an empty list: every state has a candidate. */
  lemma CandidatesNonEmpty(state: AntState, breed: Breed, at: Coord, center: Coord, size: int, env: Env)
    requires env.WellFormed() && |env.cells| > 0
    ensures exists i :: i in Candidates(state, breed, at, center, size, env)
  {
    match state
    case WanderAndFight =>
      WanderNonEmpty(breed, env.cells, env.smells);
      assert Candidates(state, breed, at, center, size, env) == WanderChoices(breed, env.cells, env.smells);
    case FoundResource =>
      if NearCentre(at, center) {
        assert 0 in Candidates(state, breed, at, center, size, env);
      } else {
        ReturnNonEmpty(center, size, env);
        assert Candidates(state, breed, at, center, size, env) == ReturnChoices(center, size, env);
      }
  }
}
