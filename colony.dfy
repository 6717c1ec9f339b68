/**
 * The simulation engine: the World (grid, smell field, directory of ants by
 * position, the two priority lists, resource sources and counters) and the
 * Ant (position, breed, power, state), with the operations of Lab7.py that
 * change them in place.
 */
module Colony {
  import opened Cells
  import opened Neighbourhood
  import opened Scent

  /** add_resources moves the sources every this many iterations (the default one_step uses). */
  const ITERATIONS_TO_CHANGE: nat := 100
  /** eat's default gain. */
  const EAT_GAIN: real := 40.0
  /** What a defender loses in a fight (decrease_power's default). */
  const ATTACK_LOSS: real := 20.0
  /** What the attacker loses in the same fight. */
  const COUNTER_LOSS: real := 5.0

  /** The red centre: (size//3, size//2), on the grid of any size. */
  function RedCentre(size: int): (c: Coord)
    ensures 0 < size ==> InGrid(size, c)
  {
    (size / 3, size / 2)
  }

  /** The blue centre: (2*size//3+1, size//2), on the grid once size is at least 4. */
  function BlueCentre(size: int): (c: Coord)
    ensures 4 <= size ==> InGrid(size, c)
  {
    (2 * size / 3 + 1, size / 2)
  }

  /** The columns a resource source may take: range(size//2-1) followed by range(size//2+1, size). */
  function SourceColumns(size: int): (ys: seq<int>)
    requires 2 <= size
    ensures |ys| == size - 2
  {
    seq(size / 2 - 1, i => i) + seq(size - (size / 2 + 1), i => size / 2 + 1 + i)
  }

  /** A source column is any column but the two around the middle. */
  lemma SourceColumnsAvoidMiddle(size: int, y: int)
    requires 2 <= size
    ensures y in SourceColumns(size) <==> 0 <= y < size && y != size / 2 - 1 && y != size / 2
  {
    var low, high := seq(size / 2 - 1, i => i), seq(size - (size / 2 + 1), i => size / 2 + 1 + i);
    assert SourceColumns(size) == low + high;
    if 0 <= y < size / 2 - 1 {
      assert low[y] == y;
    } else if size / 2 + 1 <= y < size {
      assert high[y - (size / 2 + 1)] == y;
    }
  }

  /** A coordinate that add_resources may draw as a source. */
  ghost predicate IsSource(size: int, c: Coord)
    requires 2 <= size
  {
    0 <= c.0 < size && c.1 in SourceColumns(size)
  }

  /** No source lies off the grid or on either colony centre. */
  lemma SourcesAvoidCentres(size: int, c: Coord)
    requires 4 <= size && IsSource(size, c)
    ensures InGrid(size, c) && c != RedCentre(size) && c != BlueCentre(size)
  {
    SourceColumnsAvoidMiddle(size, c.1);
  }

  /** i and j are indices of s, i before j. */
  ghost predicate Pair<T>(s: seq<T>, i: int, j: int) {
    0 <= i < j < |s|
  }

  /** No element of s occurs twice; instances are taken on demand, one Pair at a time. */
  ghost predicate Distinct<T>(s: seq<T>) {
    forall i, j {:trigger Pair(s, i, j)} | Pair(s, i, j) :: s[i] != s[j]
  }

  /** del s[j]: the same elements but s[j], still without repetitions. */
  lemma RemoveAt<T>(s: seq<T>, j: int)
    requires Distinct(s) && 0 <= j < |s|
    ensures Distinct(s[..j] + s[j + 1..])
    ensures forall a :: a in s[..j] + s[j + 1..] <==> a in s && a != s[j]
  {
    var r := s[..j] + s[j + 1..];
    assert forall k | 0 <= k < |r| :: r[k] == if k < j then s[k] else s[k + 1];
    forall i, k | Pair(r, i, k)
      ensures r[i] != r[k]
    {
      var i', k' := if i < j then i else i + 1, if k < j then k else k + 1;
      assert Pair(s, i', k');
    }
    forall a | a in r
      ensures a != s[j]
    {
      var k :| 0 <= k < |r| && r[k] == a;
      assert Pair(s, k, j) || Pair(s, j, k + 1);
    }
    forall a | a in s && a != s[j]
      ensures a in r
    {
      var k :| 0 <= k < |s| && s[k] == a;
      if k < j {
        assert r[k] == a;
      } else {
        assert r[k - 1] == a;
      }
    }
  }

  /** Appending an element not yet present keeps a sequence free of repetitions. */
  lemma AppendNew<T>(s: seq<T>, x: T)
    requires Distinct(s) && x !in s
    ensures Distinct(s + [x])
  {
    var r := s + [x];
    forall i, j | Pair(r, i, j)
      ensures r[i] != r[j]
    {
      if j < |s| {
        assert Pair(s, i, j);
      }
    }
  }

  /** The ants of s that are not in dead, in their order. */
  function Survivors(s: seq<Ant>, dead: set<Ant>): (r: seq<Ant>)
    ensures |r| <= |s|
    decreases |s|
  {
    if s == [] then []
    else
      var rest := Survivors(s[..|s| - 1], dead);
      if s[|s| - 1] in dead then rest else rest + [s[|s| - 1]]
  }

  /** The survivors are exactly the ants of s outside dead, each drawn from s. */
  lemma {:induction false} SurvivorsSpec(s: seq<Ant>, dead: set<Ant>)
    ensures forall a | a in s :: a in Survivors(s, dead) <==> a !in dead
    ensures forall a | a in Survivors(s, dead) :: a in s
    decreases |s|
  {
    if s != [] {
      var init := s[..|s| - 1];
      SurvivorsSpec(init, dead);
      assert s == init + [s[|s| - 1]];
    }
  }

  /** The survivors keep their order: any two of them stand in s in the same order. */
  lemma {:induction false} SurvivorsInOrder(s: seq<Ant>, dead: set<Ant>, i: int, j: int)
    requires 0 <= i < j < |Survivors(s, dead)|
    ensures exists i', j' :: 0 <= i' < j' < |s| && s[i'] == Survivors(s, dead)[i] && s[j'] == Survivors(s, dead)[j]
    decreases |s|
  {
    var init := s[..|s| - 1];
    var rest := Survivors(init, dead);
    if j < |rest| {
      SurvivorsInOrder(init, dead, i, j);
      var i', j' :| 0 <= i' < j' < |init| && init[i'] == rest[i] && init[j'] == rest[j];
      assert s[i'] == init[i'] && s[j'] == init[j'];
    } else {
      SurvivorsSpec(init, dead);
      assert rest[i] in rest;
      var i' :| 0 <= i' < |init| && init[i'] == rest[i];
      assert s[i'] == init[i'];
    }
  }

  /** Survivors of a longer prefix: one more ant, kept exactly when it is not dead. */
  lemma SurvivorsExtend(s: seq<Ant>, dead: set<Ant>, i: int)
    requires 0 <= i < |s|
    ensures Survivors(s[..i + 1], dead) ==
            Survivors(s[..i], dead) + (if s[i] in dead then [] else [s[i]])
  {
    assert s[..i + 1][..i] == s[..i];
  }

  /**
   * One step of the walk: with the first i ants of s seen and `rest` still to
   * come, the next ant is rest[0], and it joins the survivors unless dead.
   */
  lemma SurvivorsNext(s: seq<Ant>, dead: set<Ant>, i: int, rest: seq<Ant>)
    requires 0 <= i < |s| && s[..i] + rest == s
    ensures rest != [] && rest[0] == s[i] && s[..i + 1] + rest[1..] == s
    ensures Survivors(s[..i + 1], dead) == Survivors(s[..i], dead) + if rest[0] in dead then [] else [rest[0]]
  {
    assert rest == s[i..];
    SurvivorsExtend(s, dead, i);
    assert rest[1..] == s[i + 1..];
  }

  /** Dropping the first element keeps a sequence free of repetitions. */
  lemma DistinctTail<T>(s: seq<T>)
    requires Distinct(s) && s != []
    ensures Distinct(s[1..])
  {
    forall i, j | Pair(s[1..], i, j)
      ensures s[1..][i] != s[1..][j]
    {
      assert Pair(s, i + 1, j + 1);
    }
  }

  /** Concatenation is associative. */
  lemma AppendAssoc<T>(a: seq<T>, b: seq<T>, c: seq<T>)
    ensures (a + b) + c == a + (b + c)
  {
  }

  /** Moving the first element of `rest` to the end of `seen` keeps the concatenation. */
  lemma ShiftFirst<T>(seen: seq<T>, rest: seq<T>)
    requires rest != []
    ensures seen + rest == (seen + [rest[0]]) + rest[1..]
  {
    assert rest == [rest[0]] + rest[1..];
  }

  /**
   * The centres among the first k of `centres` where an ant appears: those
   * free in `taken` whose coin came up, in order.
   */
  function BornAt(centres: seq<Coord>, coins: seq<bool>, taken: set<Coord>, k: int): (r: seq<Coord>)
    requires |coins| == |centres| && 0 <= k <= |centres|
    ensures forall m | 0 <= m < |r| :: r[m] in centres && r[m] !in taken
    ensures |r| <= k
  {
    if k == 0 then []
    else
      BornAt(centres, coins, taken, k - 1) + (if coins[k - 1] && centres[k - 1] !in taken then [centres[k - 1]] else [])
  }
  /** One centre receives an ant exactly when it is among the first k, is free in `taken` and its coin came up. */
  lemma {:induction false} BornAtExactly(centres: seq<Coord>, coins: seq<bool>, taken: set<Coord>, k: int, c: Coord)
    requires |coins| == |centres| && 0 <= k <= |centres|
    ensures c in BornAt(centres, coins, taken, k) <==>
      exists m :: 0 <= m < k && coins[m] && centres[m] !in taken && centres[m] == c
    decreases k
  {
    if k > 0 {
      BornAtExactly(centres, coins, taken, k - 1, c);
    }
  }


  /** Starting power: 90, or 180 for a red ant of an asymmetric world. */
  function StartPower(breed: Breed, different: bool): (p: real)
    ensures p == 90.0 || p == 180.0
    ensures p == 180.0 <==> different && breed == Red
  {
    if !different || breed == Blue then 90.0 else 180.0
  }

  /** The power cap of eat: 100 + 100 * int(different). */
  function PowerCap(different: bool): (cap: real)
    ensures cap == 100.0 || cap == 200.0
    ensures cap == 200.0 <==> different
  {
    100.0 + 100.0 * (if different then 1.0 else 0.0)
  }

  /** Every ant starts strictly inside its power range. */
  lemma StartPowerInRange(breed: Breed, different: bool)
    requires breed == Blue ==> !different
    ensures 0.0 < StartPower(breed, different) < PowerCap(different)
  {
  }

  /** eat's new power: power + 40, clamped to the cap. */
  function Fed(power: real, cap: real): (r: real)
    ensures r <= cap && (power <= r || r == cap)
    ensures r == power + EAT_GAIN || (r == cap && cap < power + EAT_GAIN)
  {
    if power + EAT_GAIN > cap then cap else power + EAT_GAIN
  }

  /** The state and step counter choose_position leaves, given whether the ant is next to its centre. */
  function NextState(state: AntState, steps: nat, nearCentre: bool): (r: (AntState, nat))
    ensures state == WanderAndFight ==> r == (state, steps)
    ensures state == FoundResource && nearCentre ==> r == (WanderAndFight, steps)
    ensures state == FoundResource && !nearCentre ==> r == (FoundResource, steps + 1)
  {
    match state
    case WanderAndFight => (WanderAndFight, steps)
    case FoundResource => if nearCentre then (WanderAndFight, steps) else (FoundResource, steps + 1)
  }

  /** Sharing power: both get the average, which lies between the two and keeps their sum. */
  lemma AverageBetween(p: real, q: real)
    ensures var avg := (p + q) / 2.0;
            (p <= avg <= q || q <= avg <= p) && avg + avg == p + q && (p == q ==> avg == p)
  {
  }

  class World {
    const size: int
    const numberOfResources: nat
    const different: bool
    /** Lab7.py derives it from the size with a square root; here it is a given positive real. */
    const smellDecayRate: real
    const redCenter: Coord
    const blueCenter: Coord
    const grid: array2<Cell>
    const smells: array2<real>
    var antsPositions: map<Coord, Ant>
    var redAnts: seq<Ant>
    var blueAnts: seq<Ant>
    var iteration: nat
    var resources: seq<Coord>
    var redEat: nat
    var blueEat: nat
    var redKilled: nat
    var blueKilled: nat
    /** Every ant this world has created, alive or dead. */
    ghost var Ants: set<Ant>

    // -------------------------------------------------------------------------
    // Invariants
    // -------------------------------------------------------------------------

    ghost predicate Shape() {
      && 4 <= size && (different ==> 7 <= size)
      && 0.0 < smellDecayRate
      && grid.Length0 == size && grid.Length1 == size
      && smells.Length0 == size && smells.Length1 == size
      && redCenter == RedCentre(size) && blueCenter == BlueCentre(size)
    }

    /** The ant belongs to this world; only red ants of an asymmetric world are `different`. */
    ghost predicate Member(a: Ant) {
      a.world == this && a.different == (different && a.breed == Red)
    }

    ghost predicate Links()
      reads this`Ants
    {
      forall a {:trigger Member(a)} | a in Ants :: Member(a)
    }

    /** The ant filed under p is alive and stands at p, and p's cell shows its breed. */
    ghost predicate Occupant(p: Coord)
      reads this`antsPositions, this`Ants, grid, Ants`x, Ants`y, Ants`death
      requires Shape() && p in antsPositions
    {
      && InGrid(size, p) && antsPositions[p] in Ants
      && antsPositions[p].Position() == p && !antsPositions[p].death
      && grid[p.0, p.1] == antsPositions[p].breed
    }

    /** A live ant is filed under its own position. */
    ghost predicate Filed(a: Ant)
      reads this`antsPositions, a`x, a`y, a`death
    {
      !a.death ==> a.Position() in antsPositions && antsPositions[a.Position()] == a
    }

    /** The grid and ants_positions agree, and every live ant is filed under its own position. */
    ghost predicate Directory()
      reads this`antsPositions, this`Ants, grid, Ants`x, Ants`y, Ants`death
    {
      && Shape()
      && (forall p {:trigger Occupant(p)} | p in antsPositions :: Occupant(p))
      && (forall i, j {:trigger grid[i, j]} | 0 <= i < size && 0 <= j < size && grid[i, j].IsBreed() ::
            (i, j) in antsPositions)
      && (forall a {:trigger Filed(a)} | a in Ants :: Filed(a))
    }

    /** A live ant is in its breed's priority list. */
    ghost predicate Listed(a: Ant)
      reads this`redAnts, this`blueAnts, a`death
    {
      !a.death ==> a in PriorityList(a.breed)
    }

    /** The priority lists hold each breed's ants once, oldest first; every live ant is in its list. */
    ghost predicate PriorityLists()
      reads this`redAnts, this`blueAnts, this`Ants, Ants`death
    {
      && (forall k | 0 <= k < |redAnts| :: redAnts[k] in Ants && redAnts[k].breed == Red)
      && (forall k | 0 <= k < |blueAnts| :: blueAnts[k] in Ants && blueAnts[k].breed == Blue)
      && (forall a {:trigger Listed(a)} | a in Ants :: Listed(a))
      && Distinct(redAnts) && Distinct(blueAnts)
    }

    /** Live ants, except those in `exempt`, have positive power at most their cap. */
    ghost predicate Powers(exempt: set<Ant>)
      reads this`Ants, Ants`death, Ants`power
    {
      forall a {:trigger a.Fit()} | a in Ants && a !in exempt :: a.Fit()
    }

    ghost predicate SmellBounds()
      reads smells
    {
      Shape() && forall i, j | 0 <= i < size && 0 <= j < size :: 0.0 <= smells[i, j] <= 100.0
    }

    ghost predicate Sources()
      reads this`resources
    {
      Shape() && |resources| <= numberOfResources &&
      forall k | 0 <= k < |resources| :: IsSource(size, resources[k])
    }

    ghost predicate Inv(exempt: set<Ant>)
      reads this`antsPositions, this`redAnts, this`blueAnts, this`resources, this`Ants
      reads grid, smells, Ants`x, Ants`y, Ants`death, Ants`power
    {
      Shape() && Links() && Directory() && PriorityLists() && Powers(exempt) && SmellBounds() && Sources()
    }

    ghost predicate Valid()
      reads this`antsPositions, this`redAnts, this`blueAnts, this`resources, this`Ants
      reads grid, smells, Ants`x, Ants`y, Ants`death, Ants`power
    {
      Inv({})
    }

    // -------------------------------------------------------------------------
    // Views
    // -------------------------------------------------------------------------

    function PriorityList(breed: Breed): seq<Ant>
      reads this`redAnts, this`blueAnts
    {
      if breed == Red then redAnts else blueAnts
    }

    /** The priority list of the other breed. */
    function OtherList(breed: Breed): (r: seq<Ant>)
      reads this`redAnts, this`blueAnts
      ensures r == PriorityList(Opposite(breed).value)
    {
      if breed == Red then blueAnts else redAnts
    }

    function Center(breed: Breed): Coord {
      if breed == Red then redCenter else blueCenter
    }

    /** The centres where blue ants appear: the second, (x+1, x), only in an asymmetric world. */
    function BlueCentres(): (cs: seq<Coord>)
      ensures |cs| == if different then 2 else 1
      ensures cs[0] == blueCenter
      ensures different ==> cs[1] == (blueCenter.0 + 1, blueCenter.0)
    {
      [blueCenter, (blueCenter.0 + 1, blueCenter.0)][..if different then 2 else 1]
    }

    /** The spawning centres are on the grid, and no two of them coincide. */
    lemma CentresApart()
      requires Shape()
      ensures InGrid(size, redCenter) && redCenter !in BlueCentres()
      ensures forall k | 0 <= k < |BlueCentres()| :: InGrid(size, BlueCentres()[k])
      ensures Distinct(BlueCentres())
    {
      forall i, j | Pair(BlueCentres(), i, j)
        ensures BlueCentres()[i] != BlueCentres()[j]
      {
        assert i == 0 && j == 1;
      }
    }

    ghost function DeadAnts(): set<Ant>
      reads this`Ants, Ants`death
    {
      set a | a in Ants && a.death
    }

    /** The smell field as rows of values. */
    function SmellField(): (f: seq<seq<real>>)
      reads smells
      ensures |f| == smells.Length0
      ensures forall i | 0 <= i < smells.Length0 ::
        |f[i]| == smells.Length1 && forall j | 0 <= j < smells.Length1 :: f[i][j] == smells[i, j]
    {
      seq(smells.Length0, i requires 0 <= i < smells.Length0 reads smells =>
        seq(smells.Length1, j requires 0 <= j < smells.Length1 reads smells => smells[i, j]))
    }

    /** get_environment: the eight neighbours of p with their cell codes and smells. */
    function Environment(p: Coord): (e: Env)
      reads grid, smells
      requires Shape() && InGrid(size, p)
      ensures e.WellFormed() && |e.coords| == 8
      ensures e.coords == Neighbours(size, p.0, p.1)
      ensures forall i | 0 <= i < 8 ::
        e.cells[i] == grid[e.coords[i].0, e.coords[i].1] && e.smells[i] == smells[e.coords[i].0, e.coords[i].1]
    {
      var ns := Neighbours(size, p.0, p.1);
      Env(ns,
          seq(8, i requires 0 <= i < 8 reads grid => grid[ns[i].0, ns[i].1]),
          seq(8, i requires 0 <= i < 8 reads smells => smells[ns[i].0, ns[i].1]))
    }

    /** A live ant of a valid world stands on the grid, filed under its own position. */
    lemma LivePlaced(a: Ant)
      requires Valid() && a in Ants && !a.death
      ensures InGrid(size, a.Position()) && a.Position() in antsPositions && antsPositions[a.Position()] == a
      ensures grid[a.x, a.y] == a.breed
      ensures Member(a) && a.Fit()
    {
      assert Filed(a);
      assert Occupant(a.Position());
    }

    /** The ant filed under p in a valid world is a live member of it, standing at p. */
    lemma Resident(p: Coord)
      requires Valid() && p in antsPositions
      ensures Occupant(p) && Member(antsPositions[p]) && antsPositions[p].Fit()
    {
      assert Occupant(p);
    }

    /** A cell that shows no breed has no ant filed under it. */
    lemma Vacant(p: Coord)
      requires Valid() && InGrid(size, p) && !grid[p.0, p.1].IsBreed()
      ensures p !in antsPositions
    {
      assert p in antsPositions ==> Occupant(p);
    }

    // -------------------------------------------------------------------------
    // Frame lemmas: each invariant piece an operation touches, re-established
    // -------------------------------------------------------------------------

    /** Live ants whose power and death flag did not change, other than `ant`, keep their bounds. */
    twostate lemma OthersKeepPowers(ant: Ant)
      requires old(Powers({ant})) && Ants == old(Ants)
      requires forall a | a in Ants && a != ant :: a.KeptPower()
      ensures Powers({ant})
    {
      forall a | a in Ants && a != ant
        ensures a.Fit()
      {
        assert a.KeptPower() && old(a.Fit());
      }
    }

    lemma PowersRestored(ant: Ant)
      requires Powers({ant})
      requires ant.death || 0.0 < ant.power <= ant.Cap()
      ensures Powers({})
    {
      forall a | a in Ants
        ensures a.Fit()
      {
        if a != ant {
          assert a !in {ant};
        }
      }
    }

    /** The lists keep their order and contents while no ant comes back to life. */
    twostate lemma ListsKept(ant: Ant)
      requires old(PriorityLists()) && Ants == old(Ants)
      requires redAnts == old(redAnts) && blueAnts == old(blueAnts)
      requires forall a | a in Ants && a != ant :: a.KeptDeath()
      requires ant.death || !old(ant.death)
      ensures PriorityLists()
    {
      forall a | a in Ants
        ensures Listed(a)
      {
        assert old(Listed(a));
        if a != ant {
          assert a.KeptDeath();
        }
      }
    }

    /** del ants[j] of a dead ant leaves a list that still holds every live ant of the breed once. */
    lemma DropDead(breed: Breed, j: int)
      requires PriorityLists() && 0 <= j < |PriorityList(breed)| && PriorityList(breed)[j].death
      ensures var s := PriorityList(breed); var r := s[..j] + s[j + 1..];
        && Distinct(r)
        && (forall k | 0 <= k < |r| :: r[k] in Ants && r[k].breed == breed)
        && (forall k | 0 <= k < |s| && !s[k].death :: s[k] in r)
    {
      var s := PriorityList(breed);
      RemoveAt(s, j);
      var r := s[..j] + s[j + 1..];
      forall k | 0 <= k < |r|
        ensures r[k] in Ants && r[k].breed == breed
      {
        assert r[k] in s;
      }
    }

    twostate lemma EraseKeepsDirectory(ant: Ant)
      requires old(Directory()) && ant in Ants && Ants == old(Ants)
      requires ant.death && !old(ant.death) && ant.Position() == old(ant.Position())
      requires antsPositions == old(antsPositions) - {ant.Position()}
      requires forall i, j {:trigger grid[i, j]} | 0 <= i < size && 0 <= j < size ::
        grid[i, j] == if (i, j) == ant.Position() then Empty else old(grid[i, j])
      requires forall a | a in Ants && a != ant :: a.Stayed()
      ensures Directory()
    {
      assert old(Filed(ant));
      forall p | p in antsPositions
        ensures Occupant(p)
      {
        assert old(Occupant(p));
        assert old(antsPositions)[p].Stayed();
      }
      forall a | a in Ants
        ensures Filed(a)
      {
        if a != ant && !a.death {
          assert a.Stayed() && old(Filed(a));
          assert old(Occupant(a.Position()));
        }
      }
    }

    twostate lemma MoveKeepsDirectory(ant: Ant)
      requires old(Directory()) && ant in Ants && Ants == old(Ants) && !ant.death && !old(ant.death)
      requires InGrid(size, ant.Position())
      requires ant.Position() !in old(antsPositions) || old(antsPositions)[ant.Position()] == ant
      requires antsPositions == (old(antsPositions) - {old(ant.Position())})[ant.Position() := ant]
      requires forall i, j {:trigger grid[i, j]} | 0 <= i < size && 0 <= j < size ::
        grid[i, j] == if (i, j) == ant.Position() then ant.breed
                      else if (i, j) == old(ant.Position()) then Empty
                      else old(grid[i, j])
      requires forall a | a in Ants && a != ant :: a.Stayed()
      ensures Directory()
    {
      var from := old(ant.Position());
      assert old(Filed(ant));
      forall p | p in antsPositions
        ensures Occupant(p)
      {
        if p != ant.Position() {
          assert old(Occupant(p));
          var a := old(antsPositions)[p];
          assert p != from && a != ant && a.Stayed();
        }
      }
      forall a | a in Ants
        ensures Filed(a)
      {
        if a != ant && !a.death {
          assert a.Stayed() && old(Filed(a));
          assert old(Occupant(a.Position()));
          assert a.Position() != from && a.Position() != ant.Position();
        }
      }
    }

    /** move_ant keeps the whole invariant. */
    twostate lemma MoveKeepsValid(ant: Ant, new from: Coord)
      requires old(Valid()) && ant in Ants && Ants == old(Ants) && !ant.death && !old(ant.death)
      requires old(ant.Position()) == from && InGrid(size, ant.Position())
      requires ant.Position() !in old(antsPositions) || old(antsPositions)[ant.Position()] == ant
      requires antsPositions == (old(antsPositions) - {from})[ant.Position() := ant]
      requires forall i, j {:trigger grid[i, j]} | 0 <= i < size && 0 <= j < size ::
        grid[i, j] == if (i, j) == ant.Position() then ant.breed
                      else if (i, j) == from then Empty
                      else old(grid[i, j])
      requires forall a | a in Ants && a != ant :: a.Untouched()
      requires 0.0 < ant.power <= ant.Cap()
      requires redAnts == old(redAnts) && blueAnts == old(blueAnts) && resources == old(resources)
      requires unchanged(smells)
      ensures Valid()
    {
      assert forall a | a in Ants && a != ant :: a.Untouched() ==> a.Stayed() && a.KeptPower() && a.KeptDeath();
      MoveKeepsDirectory(ant);
      ListsKept(ant);
      OthersKeepPowers(ant);
      PowersRestored(ant);
    }

    twostate lemma SpawnKeepsDirectory(new ant: Ant, center: Coord)
      requires old(Directory()) && InGrid(size, center) && center !in old(antsPositions)
      requires ant !in old(Ants) && Ants == old(Ants) + {ant}
      requires ant.Position() == center && !ant.death
      requires antsPositions == old(antsPositions)[center := ant]
      requires forall i, j {:trigger grid[i, j]} | 0 <= i < size && 0 <= j < size ::
        grid[i, j] == if (i, j) == center then ant.breed else old(grid[i, j])
      requires forall a | a in old(Ants) :: a.Stayed()
      ensures Directory()
    {
      forall p | p in antsPositions
        ensures Occupant(p)
      {
        if p != center {
          assert old(Occupant(p));
          assert old(antsPositions)[p].Stayed();
        }
      }
      forall a | a in Ants
        ensures Filed(a)
      {
        if a != ant {
          assert a.Stayed() && old(Filed(a));
        }
      }
    }

    twostate lemma SpawnKeepsLists(new ant: Ant, breed: Breed)
      requires old(PriorityLists()) && old(Powers({})) && ant.breed == breed
      requires ant !in old(Ants) && Ants == old(Ants) + {ant}
      requires !ant.death && 0.0 < ant.power <= ant.Cap()
      requires PriorityList(breed) == old(PriorityList(breed)) + [ant]
      requires OtherList(breed) == old(OtherList(breed))
      requires forall a | a in old(Ants) :: a.KeptPower()
      ensures PriorityLists() && Powers({})
    {
      assert ant !in old(PriorityList(breed));
      AppendNew(old(PriorityList(breed)), ant);
      forall a | a in Ants
        ensures Listed(a) && a.Fit()
      {
        if a != ant {
          assert a.KeptPower() && old(Listed(a)) && old(a.Fit());
        }
      }
    }

    twostate lemma ResourcesKeepDirectory()
      requires old(Directory()) && Ants == old(Ants) && antsPositions == old(antsPositions)
      requires forall i, j {:trigger grid[i, j]} | 0 <= i < size && 0 <= j < size ::
        grid[i, j] == old(grid[i, j]) || ((i, j) !in antsPositions && grid[i, j] == Resource)
      requires forall a | a in Ants :: a.Stayed()
      ensures Directory()
    {
      forall p | p in antsPositions
        ensures Occupant(p)
      {
        assert old(Occupant(p));
        assert old(antsPositions)[p].Stayed();
      }
      forall a | a in Ants
        ensures Filed(a)
      {
        assert a.Stayed() && old(Filed(a));
      }
    }

    /** Changing only the smells, within their bounds, keeps the whole invariant. */
    twostate lemma SmellsKeepValid()
      requires old(Valid()) && SmellBounds() && unchanged(this) && unchanged(grid) && unchanged(Ants)
      ensures Valid()
    {
    }

    /** With the smell bounds, the smell field as a value is in bounds. */
    lemma SmellFieldInBounds()
      requires SmellBounds()
      ensures InBounds(SmellField())
    {
      var f := SmellField();
      forall i | 0 <= i < |f|
        ensures RowInBounds(f[i])
      {
        assert forall j | 0 <= j < |f[i]| :: f[i][j] == smells[i, j];
      }
    }

    // -------------------------------------------------------------------------
    // Operations
    // -------------------------------------------------------------------------

    constructor (size: int, numberOfResources: nat, different: bool, smellDecayRate: real)
      requires 4 <= size && (different ==> 7 <= size) && 0.0 < smellDecayRate
      ensures Valid()
      ensures this.size == size && this.numberOfResources == numberOfResources
      ensures this.different == different && this.smellDecayRate == smellDecayRate
      ensures redCenter == RedCentre(size) && blueCenter == BlueCentre(size)
      ensures forall i, j {:trigger grid[i, j]} | 0 <= i < size && 0 <= j < size :: grid[i, j] == Empty
      ensures forall i, j {:trigger smells[i, j]} | 0 <= i < size && 0 <= j < size :: smells[i, j] == 0.0
      ensures antsPositions == map[] && redAnts == [] && blueAnts == [] && Ants == {}
      ensures iteration == 0 && resources == [] && redEat == 0 && blueEat == 0
      ensures redKilled == 0 && blueKilled == 0
    {
      this.size := size;
      this.numberOfResources := numberOfResources;
      this.different := different;
      this.smellDecayRate := smellDecayRate;
      redCenter := RedCentre(size);
      blueCenter := BlueCentre(size);
      grid := new Cell[size, size]((i, j) => Empty);
      smells := new real[size, size]((i, j) => 0.0);
      antsPositions := map[];
      redAnts, blueAnts := [], [];
      iteration := 0;
      resources := [];
      redEat, blueEat := 0, 0;
      redKilled, blueKilled := 0, 0;
      Ants := {};
    }

    /**
     * What move_ant does with `ant`, which stood at `from`, and the wrapped
     * target: the ant and its directory entry go to the target, the grid shows
     * the ant there and `from` empty, and a resource found on the target is
     * eaten (power fed up to the cap, returning home, counted for the breed).
     */
    twostate predicate Moved(ant: Ant, from: Coord, target: Coord)
      reads this, grid, ant
      requires Shape() && InGrid(size, target)
    {
      && ant.Position() == target
      && antsPositions == (old(antsPositions) - {from})[target := ant]
      && (forall i, j {:trigger grid[i, j]} | 0 <= i < size && 0 <= j < size ::
            grid[i, j] == if (i, j) == target then ant.breed
                          else if (i, j) == from then Empty
                          else old(grid[i, j]))
      && if old(grid[target.0, target.1]) == Resource then
           && ant.power == Fed(old(ant.power), ant.Cap())
           && ant.state == FoundResource && ant.stepsAfterFound == 0
           && (if ant.breed == Red then redEat == old(redEat) + 1 && blueEat == old(blueEat)
               else blueEat == old(blueEat) + 1 && redEat == old(redEat))
         else
           && ant.power == old(ant.power) && ant.state == old(ant.state)
           && ant.stepsAfterFound == old(ant.stepsAfterFound)
           && redEat == old(redEat) && blueEat == old(blueEat)
    }

    /** A cell of the grid that no ant is filed under any more shows Empty, as move_ant and erase_ant leave it. */
    ghost predicate Cleared(p: Coord)
      reads this`antsPositions, grid
    {
      InGrid(size, p) && p !in antsPositions && Shape() ==> grid[p.0, p.1] == Empty
    }

    /** The meal counters: the breed's went up by one when it ate, the rest stayed. */
    twostate predicate MealsCounted(breed: Breed, ate: bool)
      reads this`redEat, this`blueEat
    {
      && redEat == old(redEat) + (if ate && breed == Red then 1 else 0)
      && blueEat == old(blueEat) + (if ate && breed == Blue then 1 else 0)
    }

    /**
     * The body of move_ant: free the old cell, wrap the target once into the
     * grid, eat a resource found there, and file the ant under its new position.
     */
    method Relocate(ant: Ant, position: Coord)
      requires Shape() && ant.world == this && InGrid(size, ant.Position())
      requires ant.Position() in antsPositions && grid[ant.x, ant.y] == ant.breed
      requires -size <= position.0 < 2 * size && -size <= position.1 < 2 * size
      modifies this`antsPositions, this`redEat, this`blueEat, grid
      modifies ant`x, ant`y, ant`power, ant`state, ant`stepsAfterFound
      ensures InGrid(size, Wrap(size, position)) && Moved(ant, old(ant.Position()), Wrap(size, position))
    {
      var from := (ant.x, ant.y);
      grid[ant.x, ant.y] := Empty;

      var x, y := position.0, position.1;
      if x < 0 {
        x := x + size;
      } else if x >= size {
        x := x - size;
      }
      if y < 0 {
        y := y + size;
      } else if y >= size {
        y := y - size;
      }
      assert (x, y) == Wrap(size, position);

      if grid[x, y] == Resource {
        ant.Eat();
      }
      antsPositions := (antsPositions - {from})[(x, y) := ant];
      grid[x, y] := ant.breed;
      ant.x, ant.y := x, y;
    }

    /** move_ant in a valid world, onto a cell no other ant holds, keeps the world valid. */
    method MoveAnt(ant: Ant, position: Coord)
      requires Valid() && ant in Ants && !ant.death
      requires -size <= position.0 < 2 * size && -size <= position.1 < 2 * size
      requires Wrap(size, position) !in antsPositions || antsPositions[Wrap(size, position)] == ant
      modifies this`antsPositions, this`redEat, this`blueEat, grid
      modifies ant`x, ant`y, ant`power, ant`state, ant`stepsAfterFound
      ensures Valid()
      ensures InGrid(size, Wrap(size, position)) && Moved(ant, old(ant.Position()), Wrap(size, position))
    {
      var from := ant.Position();
      LivePlaced(ant);
      Relocate(ant, position);
      MoveKeepsValid(ant, from);
    }

    /** erase_ant: the ant leaves the grid and the directory and is marked dead. */
    method EraseAnt(ant: Ant)
      requires Inv({ant}) && ant in Ants && !ant.death
      modifies this`antsPositions, grid, ant`death
      ensures Valid()
      ensures ant.death
      ensures antsPositions == old(antsPositions) - {ant.Position()}
      ensures forall i, j {:trigger grid[i, j]} | 0 <= i < size && 0 <= j < size ::
        grid[i, j] == if (i, j) == ant.Position() then Empty else old(grid[i, j])
    {
      assert Filed(ant) && Occupant(ant.Position());
      grid[ant.x, ant.y] := Empty;
      antsPositions := antsPositions - {(ant.x, ant.y)};
      ant.death := true;
      EraseKeepsDirectory(ant);
      ListsKept(ant);
      OthersKeepPowers(ant);
      PowersRestored(ant);
    }

    /** One spawn at a free centre: a new ant is filed there and appended to its breed's list. */
    method Spawn(center: Coord, breed: Breed) returns (ant: Ant)
      requires Valid() && InGrid(size, center) && center !in antsPositions
      modifies this`antsPositions, this`redAnts, this`blueAnts, this`Ants, grid
      ensures Valid()
      ensures fresh(ant) && Ants == old(Ants) + {ant}
      ensures Newborn(ant, center) && ant.breed == breed
      ensures antsPositions == old(antsPositions)[center := ant]
      ensures PriorityList(breed) == old(PriorityList(breed)) + [ant]
      ensures OtherList(breed) == old(OtherList(breed))
      ensures forall i, j {:trigger grid[i, j]} | 0 <= i < size && 0 <= j < size ::
        grid[i, j] == if (i, j) == center then breed else old(grid[i, j])
    {
      // add_ants creates red ants with the world's `different` and blue ants without it
      ant := new Ant(this, center, breed, if breed == Red then different else false);
      Ants := Ants + {ant};
      antsPositions := antsPositions[center := ant];
      if breed == Red {
        redAnts := redAnts + [ant];
      } else {
        blueAnts := blueAnts + [ant];
      }
      grid[center.0, center.1] := breed;
      SpawnKeepsDirectory(ant, center);
      StartPowerInRange(breed, ant.different);
      SpawnKeepsLists(ant, breed);
    }

    /** A newly created ant: alive at `at`, wandering, with its breed's starting power. */
    ghost predicate Newborn(a: Ant, at: Coord)
      reads a
    {
      && a.Position() == at && !a.death && a.state == WanderAndFight && a.stepsAfterFound == 0
      && a.power == StartPower(a.breed, different) && a.different == (different && a.breed == Red)
    }

    /** One centre of add_ants: an ant of the breed appears there when the centre is free and its coin comes up. */
    method SpawnIfFree(center: Coord, breed: Breed, coin: bool) returns (ghost born: seq<Ant>)
      requires Valid() && InGrid(size, center)
      modifies this`antsPositions, this`redAnts, this`blueAnts, this`Ants, grid
      ensures Valid()
      ensures |born| == if coin && center !in old(antsPositions) then 1 else 0
      ensures forall k | 0 <= k < |born| :: fresh(born[k]) && Newborn(born[k], center) && born[k].breed == breed
      ensures forall a | a in Ants :: a in old(Ants) || a in born
      ensures old(Ants) <= Ants
      ensures antsPositions == if born == [] then old(antsPositions) else old(antsPositions)[center := born[0]]
      ensures PriorityList(breed) == old(PriorityList(breed)) + born
      ensures OtherList(breed) == old(OtherList(breed))
      ensures forall i, j {:trigger grid[i, j]} | 0 <= i < size && 0 <= j < size ::
        grid[i, j] == if born != [] && (i, j) == center then breed else old(grid[i, j])
    {
      born := [];
      if center !in antsPositions {
        if coin {
          var ant := Spawn(center, breed);
          born := [ant];
        }
      }
    }

    /**
     * The blue half of add_ants after its first k centres, from the blue list
     * `blue0` and the directory `pos0` it started with: the list has grown by
     * `blueBorn`, one newborn per centre of BornAt, no entry of pos0 has
     * changed, and the centres still to come are occupied exactly when they
     * are in `taken`.
     */
    ghost predicate BlueSpawning(blueCoins: seq<bool>, taken: set<Coord>, k: int, blueBorn: seq<Ant>, blue0: seq<Ant>, pos0: map<Coord, Ant>)
      reads this`blueAnts, this`antsPositions, set m | 0 <= m < |blueBorn| :: blueBorn[m]
      requires |blueCoins| == |BlueCentres()|
    {
      && 0 <= k <= |BlueCentres()|
      && blueAnts == blue0 + blueBorn
      && (var at := BornAt(BlueCentres(), blueCoins, taken, k);
          |blueBorn| == |at| && forall m | 0 <= m < |at| :: Newborn(blueBorn[m], at[m]))
      && (forall m | k <= m < |BlueCentres()| :: BlueCentres()[m] in antsPositions <==> BlueCentres()[m] in taken)
      && (forall p | p in pos0 :: p in antsPositions && antsPositions[p] == pos0[p])
    }

    /** The blue centre k of add_ants: an ant appears there when it is free and its coin comes up. */
    method SpawnBlue(blueCoins: seq<bool>, ghost taken: set<Coord>, k: int, ghost blueBorn: seq<Ant>, ghost blue0: seq<Ant>, ghost pos0: map<Coord, Ant>)
      returns (ghost born: seq<Ant>)
      requires Valid() && |blueCoins| == |BlueCentres()| && k < |BlueCentres()|
      requires BlueSpawning(blueCoins, taken, k, blueBorn, blue0, pos0)
      modifies this`antsPositions, this`redAnts, this`blueAnts, this`Ants, grid
      ensures Valid() && BlueSpawning(blueCoins, taken, k + 1, blueBorn + born, blue0, pos0)
      ensures redAnts == old(redAnts)
      ensures forall a | a in Ants :: a in old(Ants) || (a in born && fresh(a))
      ensures old(Ants) <= Ants
      ensures BornAt(BlueCentres(), blueCoins, taken, k + 1) ==
        BornAt(BlueCentres(), blueCoins, taken, k) + if born == [] then [] else [BlueCentres()[k]]
      ensures forall i, j {:trigger grid[i, j]} | 0 <= i < size && 0 <= j < size ::
        grid[i, j] == if born != [] && (i, j) == BlueCentres()[k] then Blue else old(grid[i, j])
    {
      CentresApart();
      var centres := BlueCentres();
      assert forall m | k < m < |centres| :: Pair(centres, k, m);
      born := SpawnIfFree(centres[k], Blue, blueCoins[k]);
      assert born == [] <==> !(blueCoins[k] && centres[k] !in taken);
      AppendAssoc(blue0, blueBorn, born);
    }

    /**
     * The blue half of add_ants: an ant appears at each blue centre that is
     * free and whose coin comes up. `taken` is the set of occupied cells the
     * centres are judged against; it agrees with ants_positions on every centre.
     */
    method AddBlueAnts(blueCoins: seq<bool>, ghost taken: set<Coord>) returns (ghost blueBorn: seq<Ant>)
      requires Valid() && |blueCoins| == |BlueCentres()|
      requires forall k | 0 <= k < |BlueCentres()| :: BlueCentres()[k] in antsPositions <==> BlueCentres()[k] in taken
      modifies this`antsPositions, this`redAnts, this`blueAnts, this`Ants, grid
      ensures Valid()
      ensures redAnts == old(redAnts) && blueAnts == old(blueAnts) + blueBorn
      ensures var at := BornAt(BlueCentres(), blueCoins, taken, |BlueCentres()|);
        |blueBorn| == |at| && forall k | 0 <= k < |at| :: Newborn(blueBorn[k], at[k])
      ensures forall a | a in Ants :: a in old(Ants) || (a in blueBorn && fresh(a))
      ensures old(Ants) <= Ants
      ensures forall p | p in old(antsPositions) :: p in antsPositions && antsPositions[p] == old(antsPositions)[p]
      ensures forall i, j {:trigger grid[i, j]} | 0 <= i < size && 0 <= j < size ::
        grid[i, j] == if (i, j) in BornAt(BlueCentres(), blueCoins, taken, |BlueCentres()|) then Blue else old(grid[i, j])
    {
      blueBorn := [];
      for k := 0 to |BlueCentres()|
        invariant Valid() && redAnts == old(redAnts)
        invariant BlueSpawning(blueCoins, taken, k, blueBorn, old(blueAnts), old(antsPositions))
        invariant forall a | a in Ants :: a in old(Ants) || (a in blueBorn && fresh(a))
        invariant old(Ants) <= Ants
        invariant forall i, j {:trigger grid[i, j]} | 0 <= i < size && 0 <= j < size ::
          grid[i, j] == if (i, j) in BornAt(BlueCentres(), blueCoins, taken, k) then Blue else old(grid[i, j])
      {
        var born := SpawnBlue(blueCoins, taken, k, blueBorn, old(blueAnts), old(antsPositions));
        blueBorn := blueBorn + born;
      }
    }

    /**
     * add_ants: a red ant appears at the red centre when it is free and its
     * coin comes up; likewise at each blue centre (one, or two in an
     * asymmetric world). Blue ants are never `different`.
     */
    method AddAnts(redCoin: bool, blueCoins: seq<bool>) returns (ghost redBorn: seq<Ant>, ghost blueBorn: seq<Ant>)
      requires Valid() && |blueCoins| == |BlueCentres()|
      modifies this`antsPositions, this`redAnts, this`blueAnts, this`Ants, grid
      ensures Valid()
      ensures redAnts == old(redAnts) + redBorn && blueAnts == old(blueAnts) + blueBorn
      ensures |redBorn| == if redCoin && redCenter !in old(antsPositions) then 1 else 0
      ensures forall k | 0 <= k < |redBorn| :: Newborn(redBorn[k], redCenter)
      ensures var at := BornAt(BlueCentres(), blueCoins, old(antsPositions).Keys, |BlueCentres()|);
        |blueBorn| == |at| && forall k | 0 <= k < |at| :: Newborn(blueBorn[k], at[k])
      ensures forall a | a in Ants :: a in old(Ants) || (fresh(a) && (a in redBorn || a in blueBorn))
      ensures old(Ants) <= Ants
      ensures forall p | p in old(antsPositions) :: p in antsPositions && antsPositions[p] == old(antsPositions)[p]
      ensures forall i, j {:trigger grid[i, j]} | 0 <= i < size && 0 <= j < size ::
        grid[i, j] == if (i, j) in BornAt(BlueCentres(), blueCoins, old(antsPositions).Keys, |BlueCentres()|) then Blue
                      else if redBorn != [] && (i, j) == redCenter then Red
                      else old(grid[i, j])
    {
      CentresApart();
      redBorn := SpawnIfFree(redCenter, Red, redCoin);
      blueBorn := AddBlueAnts(blueCoins, old(antsPositions).Keys);
    }

    /** The resource cells a pass of add_resources writes: free sources whose coin came up. */
    ghost function Produced(cells: seq<Coord>, coins: seq<bool>, k: int): (r: set<Coord>)
      reads this`antsPositions
      requires 0 <= k <= |cells| <= |coins|
      ensures forall c | c in r :: c in cells[..k] && c !in antsPositions
    {
      set m | 0 <= m < k && coins[m] && cells[m] !in antsPositions :: cells[m]
    }

    /**
     * add_resources: every ITERATIONS_TO_CHANGE iterations the sources move to
     * `newSources`; then each source not under an ant shows a resource when its
     * coin comes up.
     */
    method AddResources(newSources: seq<Coord>, coins: seq<bool>)
      requires Valid()
      requires |newSources| == numberOfResources && forall k | 0 <= k < |newSources| :: IsSource(size, newSources[k])
      requires |coins| == numberOfResources
      modifies this`resources, grid
      ensures Valid()
      ensures resources == if old(iteration) % ITERATIONS_TO_CHANGE == 0 then newSources else old(resources)
      ensures forall i, j {:trigger grid[i, j]} | 0 <= i < size && 0 <= j < size ::
        grid[i, j] == if (i, j) in Produced(resources, coins, |resources|) then Resource else old(grid[i, j])
    {
      if iteration % ITERATIONS_TO_CHANGE == 0 {
        resources := newSources;
      }
      var cells := resources;
      for k := 0 to |cells|
        invariant resources == cells
        invariant forall i, j {:trigger grid[i, j]} | 0 <= i < size && 0 <= j < size ::
          grid[i, j] == if (i, j) in Produced(cells, coins, k) then Resource else old(grid[i, j])
      {
        var cell := cells[k];
        SourcesAvoidCentres(size, cell);
        if cell !in antsPositions {
          if coins[k] {
            grid[cell.0, cell.1] := Resource;
          }
        }
        assert Produced(cells, coins, k + 1) ==
          Produced(cells, coins, k) + (if coins[k] && cell !in antsPositions then {cell} else {});
      }
      ResourcesKeepDirectory();
    }

    /** add_smell: raise the smell of the ant's cell to its trail strength. */
    method AddSmell(ant: Ant)
      requires Valid() && ant in Ants && !ant.death
      modifies smells
      ensures Valid()
      ensures forall i, j {:trigger smells[i, j]} | 0 <= i < size && 0 <= j < size ::
        smells[i, j] == if (i, j) == ant.Position()
                        then Deposit(old(smells[i, j]), ant.stepsAfterFound, smellDecayRate)
                        else old(smells[i, j])
    {
      LivePlaced(ant);
      var x, y := ant.x, ant.y;
      var incN := 100.0 - ant.stepsAfterFound as real * (smellDecayRate + 0.01);
      if smells[x, y] < incN {
        smells[x, y] := incN;
      }
      DepositInBounds(old(smells[x, y]), ant.stepsAfterFound, smellDecayRate);
      SmellsKeepValid();
    }

    /** Every cell loses the decay rate, clamped at zero; the smells stay within their bounds. */
    method DecayAll()
      requires SmellBounds()
      modifies smells
      ensures SmellBounds()
      ensures forall i, j {:trigger smells[i, j]} | 0 <= i < size && 0 <= j < size ::
        smells[i, j] == DecayCell(old(smells[i, j]), smellDecayRate)
    {
      forall i, j | 0 <= i < size && 0 <= j < size {
        smells[i, j] := DecayCell(smells[i, j], smellDecayRate);
      }
    }

    /**
     * The decay at the end of one_step: when the field smells anywhere, every
     * cell loses the decay rate and is clamped at zero, which strictly lowers
     * the total.
     */
    method DecaySmells()
      requires Valid()
      modifies smells
      ensures Valid()
      ensures SmellField() == if 0.0 < Total(old(SmellField())) then Decayed(old(SmellField()), smellDecayRate) else old(SmellField())
      ensures Total(SmellField()) <= Total(old(SmellField()))
      ensures 0.0 < Total(old(SmellField())) ==> Total(SmellField()) < Total(old(SmellField()))
    {
      ghost var before := SmellField();
      SmellFieldInBounds();
      DecayLowersTotal(before, smellDecayRate);
      if Total(SmellField()) > 0.0 {
        DecayAll();
        var after := Decayed(before, smellDecayRate);
        forall i | 0 <= i < size
          ensures SmellField()[i] == after[i]
        {
          assert forall j | 0 <= j < size :: SmellField()[i][j] == after[i][j];
        }
        SmellsKeepValid();
      }
    }

    /** del ants[j] of iterate_and_action, for a dead ant of the breed's list. */
    method Delete(breed: Breed, j: int)
      requires Valid() && 0 <= j < |PriorityList(breed)| && PriorityList(breed)[j].death
      modifies this`redAnts, this`blueAnts
      ensures Valid()
      ensures PriorityList(breed) == old(PriorityList(breed)[..j] + PriorityList(breed)[j + 1..])
      ensures OtherList(breed) == old(OtherList(breed))
    {
      DropDead(breed, j);
      if breed == Red {
        redAnts := redAnts[..j] + redAnts[j + 1..];
      } else {
        blueAnts := blueAnts[..j] + blueAnts[j + 1..];
      }
      forall a | a in Ants
        ensures Listed(a)
      {
        assert old(Listed(a));
      }
    }

    /**
     * A live ant's turn: it draws idx among its choices and acts on that
     * neighbour; no other ant of its breed dies.
     */
    method Play(ant: Ant) returns (idx: int)
      requires Valid() && ant in Ants && !ant.death
      modifies this`antsPositions, this`redEat, this`blueEat, grid, smells, Ants
      ensures Valid() && Ants == old(Ants) && redAnts == old(redAnts) && blueAnts == old(blueAnts)
      ensures ant.Acted(idx) && idx in old(ant.Choices())
      ensures forall a | a in Ants && a.breed == ant.breed && a != ant :: a.KeptDeath()
    {
      LivePlaced(ant);
      ant.ChoicesNonEmpty();
      // the random draw of choose_position: some index among the ant's choices
      idx :| idx in ant.Choices();
      ant.Action(idx);
    }

    /**
     * One turn of iterate_and_action at index j of the breed's list, which is
     * `seen + rest` with `rest` starting at j: a dead ant there is deleted, a
     * live one acts on the index idx drawn from its choices. No other ant of
     * the breed dies in a turn.
     */
    method Turn(breed: Breed, j: int, ghost seen: seq<Ant>, ghost rest: seq<Ant>) returns (deleted: bool, idx: int)
      requires Valid() && PriorityList(breed) == seen + rest && j == |seen| && rest != []
      modifies this`antsPositions, this`redAnts, this`blueAnts, this`redEat, this`blueEat, grid, smells, Ants
      ensures Valid() && Ants == old(Ants)
      ensures deleted == old(rest[0].death)
      ensures !deleted ==> rest[0].Acted(idx) && idx in old(rest[0].Choices())
      ensures PriorityList(breed) == seen + if deleted then rest[1..] else rest
      ensures OtherList(breed) == old(OtherList(breed))
      ensures forall a | a in Ants && a.breed == breed && a != rest[0] :: a.KeptDeath()
    {
      var ant := PriorityList(breed)[j];
      assert ant == rest[0] && ant in Ants && ant.breed == breed;
      if ant.death {
        Delete(breed, j);
        assert (seen + rest)[..j] == seen && (seen + rest)[j + 1..] == rest[1..];
        deleted, idx := true, 0;
      } else {
        idx := Play(ant);
        deleted := false;
      }
    }

    /**
     * The walk of iterate_and_action after i turns over `start`, the list it
     * began with: `seen` are the survivors of the first i ants and `rest` the
     * ants still to come, the list now being seen + rest and `died` the
     * deletions so far; the ants to come are distinct ants of the breed, dead
     * exactly when they were dead at the start.
     */
    ghost predicate Walk(breed: Breed, start: seq<Ant>, dead0: set<Ant>, i: int, died: int, seen: seq<Ant>, rest: seq<Ant>)
      reads this`redAnts, this`blueAnts, this`Ants, Ants`death
    {
      && 0 <= died <= i <= |start| && start[..i] + rest == start
      && seen == Survivors(start[..i], dead0) && |seen| == i - died
      && PriorityList(breed) == seen + rest
      && Distinct(rest)
      && forall k | 0 <= k < |rest| :: rest[k] in Ants && rest[k].breed == breed && rest[k].death == (rest[k] in dead0)
    }

    /** One turn of the walk, at the first ant still to come. */
    method Advance(breed: Breed, ghost start: seq<Ant>, ghost dead0: set<Ant>, i: int, died: nat, ghost seen: seq<Ant>, ghost rest: seq<Ant>)
      returns (died': nat, ghost seen': seq<Ant>, ghost rest': seq<Ant>)
      requires Valid() && i < |start| && Walk(breed, start, dead0, i, died, seen, rest)
      modifies this`antsPositions, this`redAnts, this`blueAnts, this`redEat, this`blueEat, grid, smells, Ants
      ensures Valid() && Ants == old(Ants)
      ensures Walk(breed, start, dead0, i + 1, died', seen', rest')
      ensures OtherList(breed) == old(OtherList(breed))
    {
      SurvivorsNext(start, dead0, i, rest);
      DistinctTail(rest);
      ShiftFirst(seen, rest);
      var deleted, _ := Turn(breed, i - died, seen, rest);
      forall k | 0 <= k < |rest[1..]|
        ensures rest[1..][k].death == old(rest[1..][k].death)
      {
        assert Pair(rest, 0, k + 1);
      }
      died', seen' := died, seen;
      if deleted {
        died' := died + 1;
      } else {
        seen' := seen + [rest[0]];
      }
      rest' := rest[1..];
    }

    /**
     * iterate_and_action: walk the breed's priority list once, oldest first,
     * taking a turn at each ant. Returns how many dead ants were deleted.
     */
    method IterateAndAction(breed: Breed) returns (died: nat)
      requires Valid()
      modifies this`antsPositions, this`redAnts, this`blueAnts, this`redEat, this`blueEat, grid, smells, Ants
      ensures Valid()
      ensures PriorityList(breed) == Survivors(old(PriorityList(breed)), old(DeadAnts()))
      ensures died == |old(PriorityList(breed))| - |PriorityList(breed)|
      ensures OtherList(breed) == old(OtherList(breed))
    {
      var start := PriorityList(breed);
      ghost var dead0 := DeadAnts();
      ghost var seen: seq<Ant> := [];
      ghost var rest := start;
      assert start[..0] + rest == start;
      died := 0;
      for i := 0 to |start|
        invariant Valid() && Ants == old(Ants)
        invariant Walk(breed, start, dead0, i, died, seen, rest)
        invariant OtherList(breed) == old(OtherList(breed))
      {
        died, seen, rest := Advance(breed, start, dead0, i, died, seen, rest);
      }
      assert start[..|start|] == start;
    }

    /**
     * The first half of one_step: add_ants, then add_resources. The lists grow
     * by the ants born, every other ant stays as it was.
     */
    method Replenish(redCoin: bool, blueCoins: seq<bool>, newSources: seq<Coord>, resourceCoins: seq<bool>)
      returns (ghost redBorn: seq<Ant>, ghost blueBorn: seq<Ant>)
      requires Valid() && |blueCoins| == |BlueCentres()|
      requires |newSources| == numberOfResources && forall k | 0 <= k < |newSources| :: IsSource(size, newSources[k])
      requires |resourceCoins| == numberOfResources
      modifies this`antsPositions, this`redAnts, this`blueAnts, this`Ants, this`resources, grid
      ensures Valid()
      ensures resources == if old(iteration) % ITERATIONS_TO_CHANGE == 0 then newSources else old(resources)
      ensures redAnts == old(redAnts) + redBorn && blueAnts == old(blueAnts) + blueBorn
      ensures |redBorn| == if redCoin && redCenter !in old(antsPositions) then 1 else 0
      ensures forall k | 0 <= k < |redBorn| :: Newborn(redBorn[k], redCenter)
      ensures var at := BornAt(BlueCentres(), blueCoins, old(antsPositions).Keys, |BlueCentres()|);
        |blueBorn| == |at| && forall k | 0 <= k < |at| :: Newborn(blueBorn[k], at[k])
      ensures forall a | a in Ants :: a in old(Ants) || (fresh(a) && (a in redBorn || a in blueBorn))
      ensures iteration == old(iteration)
      ensures forall i, j {:trigger grid[i, j]} | 0 <= i < size && 0 <= j < size ::
        grid[i, j] == if (i, j) in Produced(resources, resourceCoins, |resources|) then Resource
                      else if (i, j) in BornAt(BlueCentres(), blueCoins, old(antsPositions).Keys, |BlueCentres()|) then Blue
                      else if redCoin && redCenter !in old(antsPositions) && (i, j) == redCenter then Red
                      else old(grid[i, j])
    {
      redBorn, blueBorn := AddAnts(redCoin, blueCoins);
      AddResources(newSources, resourceCoins);
    }

    /** The number of dead ants the breed's last pass deleted. */
    function Killed(breed: Breed): nat
      reads this`redKilled, this`blueKilled
    {
      if breed == Red then redKilled else blueKilled
    }

    /** One pass of one_step: iterate_and_action over the breed's list, recording the deletions. */
    method Pass(breed: Breed)
      requires Valid()
      modifies this`antsPositions, this`redAnts, this`blueAnts, this`redEat, this`blueEat
      modifies this`redKilled, this`blueKilled, grid, smells, Ants
      ensures Valid()
      ensures PriorityList(breed) == Survivors(old(PriorityList(breed)), old(DeadAnts()))
      ensures |PriorityList(breed)| + Killed(breed) == |old(PriorityList(breed))|
      ensures OtherList(breed) == old(OtherList(breed))
      ensures Killed(Opposite(breed).value) == old(Killed(Opposite(breed).value))
      ensures iteration == old(iteration)
    {
      var died := IterateAndAction(breed);
      if breed == Red {
        redKilled := died;
      } else {
        blueKilled := died;
      }
    }

    /**
     * The second half of one_step: iterate_and_action over the red list, then
     * over the blue list, recording how many dead ants each pass deleted.
     */
    method Act()
      requires Valid()
      modifies this`antsPositions, this`redAnts, this`blueAnts, this`redEat, this`blueEat
      modifies this`redKilled, this`blueKilled, grid, smells, Ants
      ensures Valid()
      ensures redAnts == Survivors(old(redAnts), old(DeadAnts()))
      ensures |redAnts| + redKilled == |old(redAnts)| && |blueAnts| + blueKilled == |old(blueAnts)|
      ensures iteration == old(iteration)
    {
      Pass(Red);
      Pass(Blue);
    }

    /** The tail of one_step: decay the smells, then count the iteration. */
    method Finish()
      requires Valid()
      modifies smells, this`iteration
      ensures Valid() && iteration == old(iteration) + 1
      ensures SmellField() == if 0.0 < Total(old(SmellField())) then Decayed(old(SmellField()), smellDecayRate) else old(SmellField())
    {
      DecaySmells();
      iteration := iteration + 1;
    }

    /**
     * one_step: add ants, add resources, let the red list and then the blue
     * list act, decay the smells, and count the iteration.
     */
    method OneStep(redCoin: bool, blueCoins: seq<bool>, newSources: seq<Coord>, resourceCoins: seq<bool>)
      requires Valid() && |blueCoins| == |BlueCentres()|
      requires |newSources| == numberOfResources && forall k | 0 <= k < |newSources| :: IsSource(size, newSources[k])
      requires |resourceCoins| == numberOfResources
      modifies this, grid, smells, Ants
      ensures Valid()
      ensures iteration == old(iteration) + 1
      ensures resources == if old(iteration) % ITERATIONS_TO_CHANGE == 0 then newSources else old(resources)
      ensures |redAnts| + redKilled == |old(redAnts)| + (if redCoin && redCenter !in old(antsPositions) then 1 else 0)
      ensures |blueAnts| + blueKilled == |old(blueAnts)| + |BornAt(BlueCentres(), blueCoins, old(antsPositions).Keys, |BlueCentres()|)|
    {
      ghost var redBorn, blueBorn := Replenish(redCoin, blueCoins, newSources, resourceCoins);
      Act();
      Finish();
    }
  }

  class Ant {
    const world: World
    var x: int
    var y: int
    const breed: Breed
    var death: bool
    var state: AntState
    const different: bool
    var power: real
    var stepsAfterFound: nat

    /** Ant.__init__: a wandering ant at `position` with its starting power. */
    constructor (world: World, position: Coord, breed: Breed, different: bool)
      ensures this.world == world && Position() == position
      ensures this.breed == breed && this.different == different
      ensures !death && state == WanderAndFight && stepsAfterFound == 0
      ensures power == StartPower(breed, different)
    {
      this.world := world;
      x, y := position.0, position.1;
      this.breed := breed;
      death := false;
      state := WanderAndFight;
      this.different := different;
      if !different || breed == Blue {
        power := 90.0;
      } else {
        power := 180.0;
      }
      stepsAfterFound := 0;
    }

    function Position(): Coord
      reads this`x, this`y
    {
      (x, y)
    }

    function Cap(): real {
      PowerCap(different)
    }

    /** A live ant has positive power at most its cap. */
    ghost predicate Fit()
      reads this`death, this`power
    {
      !death ==> 0.0 < power <= Cap()
    }

    /** Neither moved nor died since the earlier state. */
    twostate predicate Stayed()
      reads this`x, this`y, this`death
    {
      x == old(x) && y == old(y) && death == old(death)
    }

    /** Neither its power nor its death flag changed since the earlier state. */
    twostate predicate KeptPower()
      reads this`power, this`death
    {
      power == old(power) && death == old(death)
    }

    /** Neither moved, nor died, nor changed power since the earlier state. */
    twostate predicate Untouched()
      reads this`x, this`y, this`death, this`power
    {
      x == old(x) && y == old(y) && death == old(death) && power == old(power)
    }

    twostate predicate KeptDeath()
      reads this`death
    {
      death == old(death)
    }

    /**
     * What an action leaves of a bystander: its state and step count, and,
     * unless it was the live ant at `target`, its place, death flag and power.
     */
    twostate predicate Spared(target: Coord)
      reads this`x, this`y, this`death, this`power, this`state, this`stepsAfterFound
    {
      && state == old(state) && stepsAfterFound == old(stepsAfterFound)
      && (old(Position()) != target || old(death) ==> Untouched())
    }

    /**
     * What action does to the mover and to the ant at `target`, whose cell
     * showed `cell` before: it moves onto a cell without an ant (eating a
     * resource there), fights the enemy standing there, or kisses the mate
     * standing there.
     */
    twostate predicate Struck(target: Coord, cell: Cell)
      reads this, world, world.Ants
    {
      && (!cell.IsBreed() ==>
            && Position() == target && !death
            && world.antsPositions == (old(world.antsPositions) - {old(Position())})[target := this]
            && (cell == Resource ==> power == Fed(old(power), Cap()) && state == FoundResource && stepsAfterFound == 0)
            && (cell == Empty ==> power == old(power)))
      && (cell == Opposite(breed).value ==>
            && target in old(world.antsPositions) && old(world.antsPositions)[target] in world.Ants
            && var enemy := old(world.antsPositions)[target];
            && enemy.power == old(enemy.power) - ATTACK_LOSS && enemy.death == (enemy.power <= 0.0)
            && power == old(power) - COUNTER_LOSS && death == (power <= 0.0)
            && Position() == (if !death && enemy.death then target else old(Position())))
      && (cell == breed ==>
            && target in old(world.antsPositions) && old(world.antsPositions)[target] in world.Ants
            && var mate := old(world.antsPositions)[target];
            && power == mate.power == (old(power) + old(mate.power)) / 2.0
            && Position() == old(Position()) && !death && world.antsPositions == old(world.antsPositions))
    }

    /**
     * What else an action aimed at `target` may change: the grid only at its
     * two ends, where an end no ant holds any more shows Empty; the meal count
     * of the breed by one when it ate; of the other ants only the one at
     * `target`, and none of their states.
     */
    twostate predicate Framed(target: Coord, ate: bool)
      reads this, world, world.grid, world.Ants
    {
      && world.Shape()
      && (forall i, j {:trigger world.grid[i, j]} | 0 <= i < world.size && 0 <= j < world.size && (i, j) != old(Position()) && (i, j) != target ::
            world.grid[i, j] == old(world.grid[i, j]))
      && world.Cleared(old(Position())) && world.Cleared(target)
      && world.MealsCounted(breed, ate)
      && (forall a | a in world.Ants && old(allocated(a)) && a != this :: a.Spared(target))
      && (forall a | a in world.Ants && old(allocated(a)) && a != this && a.breed == breed :: a.KeptDeath())
    }

    /**
     * What action(idx) did, from the state before it, with `target` the
     * neighbour at idx and `cell` what the grid showed there: Struck and
     * Framed; besides, a returning ant first left its trail on its cell, the
     * only smell that changed, and its state moved as NextState says unless
     * it ate.
     */
    twostate predicate Acted(idx: int)
      reads this, world, world.grid, world.smells, world.Ants
    {
      && old(world.Shape() && InGrid(world.size, Position())) && 0 <= idx < 8
      && var (target, cell) := old(Aim(idx));
      && Struck(target, cell) && Framed(target, cell == Resource)
      && (cell != Resource ==>
            (state, stepsAfterFound) == NextState(old(state), old(stepsAfterFound), NearCentre(old(Position()), world.Center(breed))))
      && (forall i, j {:trigger world.smells[i, j]} | 0 <= i < world.size && 0 <= j < world.size ::
            world.smells[i, j] == if old(state) == FoundResource && (i, j) == old(Position())
                                  then Deposit(old(world.smells[i, j]), old(stepsAfterFound), world.smellDecayRate)
                                  else old(world.smells[i, j]))
    }

    /** The indices choose_position may pick from, in the ant's current state and neighbourhood. */
    function Choices(): (r: set<int>)
      reads this`x, this`y, this`state, world.grid, world.smells
      requires world.Shape() && InGrid(world.size, Position())
      ensures forall i | i in r :: 0 <= i < 8
    {
      Candidates(state, breed, Position(), world.Center(breed), world.size, world.Environment(Position()))
    }

    /** The neighbour at index idx and what the grid shows there. */
    ghost function Aim(idx: int): (r: (Coord, Cell))
      reads this`x, this`y, world.grid
      requires world.Shape() && InGrid(world.size, Position()) && 0 <= idx < 8
      ensures InGrid(world.size, r.0) && r.0 != Position() && r.1 == world.grid[r.0.0, r.0.1]
    {
      NeighboursExcludeSelf(world.size, x, y, idx);
      var n := Neighbours(world.size, x, y)[idx];
      (n, world.grid[n.0, n.1])
    }

    /** A live ant on its grid always has some choice. */
    lemma ChoicesNonEmpty()
      requires world.Shape() && InGrid(world.size, Position())
      ensures Choices() != {}
    {
      CandidatesNonEmpty(state, breed, Position(), world.Center(breed), world.size, world.Environment(Position()));
    }

    /**
     * The returning branch of choose_position: mark the ant's cell with its
     * trail, then switch back to wandering next to the centre, or count one
     * more step.
     */
    method HeadHome()
      requires world.Valid() && this in world.Ants && !death && state == FoundResource
      modifies world.smells, this`state, this`stepsAfterFound
      ensures world.Valid()
      ensures (state, stepsAfterFound) == NextState(old(state), old(stepsAfterFound), NearCentre(Position(), world.Center(breed)))
      ensures forall i, j {:trigger world.smells[i, j]} | 0 <= i < world.size && 0 <= j < world.size ::
        world.smells[i, j] == if (i, j) == Position()
                              then Deposit(old(world.smells[i, j]), old(stepsAfterFound), world.smellDecayRate)
                              else old(world.smells[i, j])
    {
      world.AddSmell(this);
      var center := world.Center(breed);
      if Max(Abs(x - center.0), Abs(y - center.1)) <= 1 {
        state := WanderAndFight;
      } else {
        stepsAfterFound := stepsAfterFound + 1;
      }
    }

    /**
     * choose_position for the picked index idx: a returning ant first marks
     * its cell with its trail, then either switches back to wandering next to
     * its centre or counts one more step; the neighbour at idx, as seen before
     * any of this, is returned with its cell code.
     */
    method ChoosePosition(idx: int) returns (position: Coord, cell: Cell)
      requires world.Valid() && this in world.Ants && !death
      requires InGrid(world.size, Position()) && 0 <= idx < 8
      modifies world.smells, this`state, this`stepsAfterFound
      ensures world.Valid()
      ensures (position, cell) == old(Aim(idx))
      ensures (state, stepsAfterFound) == NextState(old(state), old(stepsAfterFound), NearCentre(old(Position()), world.Center(breed)))
      ensures forall i, j {:trigger world.smells[i, j]} | 0 <= i < world.size && 0 <= j < world.size ::
        world.smells[i, j] == if old(state) == FoundResource && (i, j) == Position()
                              then Deposit(old(world.smells[i, j]), old(stepsAfterFound), world.smellDecayRate)
                              else old(world.smells[i, j])
    {
      var env := world.Environment((x, y));
      if state == FoundResource {
        HeadHome();
      }
      position, cell := env.coords[idx], env.cells[idx];
    }

    /**
     * The fight of action (Lab7.py's branch for an opposite cell): the enemy
     * standing at `target` loses ATTACK_LOSS, the attacker COUNTER_LOSS, and
     * the attacker takes the cell when it survives and the enemy does not.
     */
    method Fight(enemy: Ant, target: Coord)
      requires world.Valid() && this in world.Ants && enemy in world.Ants && !death && !enemy.death
      requires enemy.breed == Opposite(breed).value && enemy.Position() == target
      modifies this`x, this`y, this`power, this`death, this`state, this`stepsAfterFound, enemy`power, enemy`death
      modifies world`antsPositions, world`redEat, world`blueEat, world.grid
      ensures world.Valid()
      ensures enemy.power == old(enemy.power) - ATTACK_LOSS && enemy.death == (enemy.power <= 0.0)
      ensures power == old(power) - COUNTER_LOSS && death == (power <= 0.0)
      ensures Position() == if !death && enemy.death then target else old(Position())
      ensures state == old(state) && stepsAfterFound == old(stepsAfterFound)
      ensures world.redEat == old(world.redEat) && world.blueEat == old(world.blueEat)
      ensures forall i, j {:trigger world.grid[i, j]} | 0 <= i < world.size && 0 <= j < world.size && (i, j) != old(Position()) && (i, j) != target ::
        world.grid[i, j] == old(world.grid[i, j])
      ensures world.Cleared(old(Position())) && world.Cleared(target)
      ensures forall a | a in world.Ants && a != this && a != enemy :: a.Untouched()
    {
      world.LivePlaced(this);
      world.LivePlaced(enemy);
      enemy.DecreasePower(ATTACK_LOSS);
      DecreasePower(COUNTER_LOSS);
      if death {
        return;
      }
      if enemy.death {
        WrapInGrid(world.size, target);
        world.MoveAnt(this, target);
      }
    }

    /** The kiss of action: two ants of one breed both take the average of their powers. */
    method Kiss(mate: Ant)
      requires world.Valid() && this in world.Ants && mate in world.Ants && this != mate
      requires !death && !mate.death && mate.breed == breed
      modifies this`power, mate`power
      ensures world.Valid()
      ensures power == mate.power == (old(power) + old(mate.power)) / 2.0
    {
      var averagePower := (power + mate.power) / 2.0;
      power := averagePower;
      mate.power := averagePower;
      assert old(Fit()) && old(mate.Fit()) && world.Member(this) && world.Member(mate);
      AverageBetween(old(power), old(mate.power));
      forall c | c in world.Ants
        ensures c.Fit()
      {
        if c != this && c != mate {
          assert c.KeptPower() && old(c.Fit());
        }
      }
    }

    /**
     * action: move onto a cell without an ant (eating a resource there), fight
     * an ant of the other breed, or kiss an ant of its own breed.
     */
    method Action(idx: int)
      requires world.Valid() && this in world.Ants && !death
      requires InGrid(world.size, Position()) && 0 <= idx < 8
      modifies world`antsPositions, world`redEat, world`blueEat, world.grid, world.smells, world.Ants
      ensures world.Valid() && Acted(idx)
    {
      var position, cell := ChoosePosition(idx);
      if position != (x, y) {
        Strike(position, cell);
      }
    }

    /**
     * The second half of action, aimed at the neighbour `target` whose cell
     * shows `cell`: move there when no ant holds it (eating a resource found
     * there), fight the ant of the other breed standing there, or kiss the ant
     * of its own breed standing there.
     */
    method Strike(target: Coord, cell: Cell)
      requires world.Valid() && this in world.Ants && !death
      requires InGrid(world.size, target) && target != Position() && cell == world.grid[target.0, target.1]
      modifies world`antsPositions, world`redEat, world`blueEat, world.grid, world.Ants
      ensures world.Valid()
      ensures !cell.IsBreed() ==>
          && Position() == target && !death
          && world.antsPositions == (old(world.antsPositions) - {old(Position())})[target := this]
          && (cell == Resource ==> power == Fed(old(power), Cap()) && state == FoundResource && stepsAfterFound == 0)
          && (cell == Empty ==> power == old(power))
      ensures cell != Resource ==> state == old(state) && stepsAfterFound == old(stepsAfterFound)
      ensures cell == Opposite(breed).value ==>
          var enemy := old(world.antsPositions)[target];
          && enemy.power == old(enemy.power) - ATTACK_LOSS && enemy.death == (enemy.power <= 0.0)
          && power == old(power) - COUNTER_LOSS && death == (power <= 0.0)
          && Position() == (if !death && enemy.death then target else old(Position()))
      ensures cell == breed ==>
          var mate := old(world.antsPositions)[target];
          && power == mate.power == (old(power) + old(mate.power)) / 2.0
          && Position() == old(Position()) && !death && world.antsPositions == old(world.antsPositions)
      ensures cell.IsBreed() ==> target in old(world.antsPositions) && old(world.antsPositions)[target] in world.Ants
      ensures forall i, j {:trigger world.grid[i, j]} | 0 <= i < world.size && 0 <= j < world.size && (i, j) != old(Position()) && (i, j) != target ::
        world.grid[i, j] == old(world.grid[i, j])
      ensures world.Cleared(old(Position())) && world.Cleared(target)
      ensures world.MealsCounted(breed, cell == Resource)
      ensures forall a | a in world.Ants && a != this :: a.Spared(target)
      ensures forall a | a in world.Ants && a != this && a.breed == breed :: a.KeptDeath()
    {
      world.LivePlaced(this);
      ghost var victim := this;
      if !cell.IsBreed() {
        WrapInGrid(world.size, target);
        world.Vacant(target);
        world.MoveAnt(this, target);
      } else {
        world.Resident(target);
        var ant := world.antsPositions[target];
        victim := ant;
        if cell == Opposite(breed).value {
          Fight(ant, target);
        } else if cell == breed {
          Kiss(ant);
        }
      }
      // only `victim`, the live ant at `target` (or this ant itself when there is none), was touched
      forall a | a in world.Ants && a != this
        ensures a.Spared(target) && (a.breed == breed ==> a.KeptDeath())
      {
        if a != victim {
          assert a.Untouched();
        }
      }
    }

    /** decrease_power: lose `number`; an ant left with no power is erased from the world. */
    method DecreasePower(number: real)
      requires world.Valid() && this in world.Ants && !death && 0.0 <= number
      modifies this`power, this`death, world`antsPositions, world.grid
      ensures world.Valid()
      ensures power == old(power) - number && death == (power <= 0.0)
      ensures world.antsPositions == if death then old(world.antsPositions) - {Position()} else old(world.antsPositions)
      ensures forall i, j {:trigger world.grid[i, j]} | 0 <= i < world.size && 0 <= j < world.size ::
        world.grid[i, j] == if death && (i, j) == Position() then Empty else old(world.grid[i, j])
    {
      world.LivePlaced(this);
      power := power - number;
      world.OthersKeepPowers(this);
      if power <= 0.0 {
        world.EraseAnt(this);
      } else {
        world.PowersRestored(this);
      }
    }

    /** eat: gain power up to the cap, start returning home, count the meal. */
    method Eat()
      modifies this`power, this`state, this`stepsAfterFound, world`redEat, world`blueEat
      ensures power == Fed(old(power), Cap())
      ensures state == FoundResource && stepsAfterFound == 0
      ensures if breed == Red then world.redEat == old(world.redEat) + 1 && world.blueEat == old(world.blueEat)
              else world.blueEat == old(world.blueEat) + 1 && world.redEat == old(world.redEat)
    {
      power := power + EAT_GAIN;
      if power > Cap() {
        power := Cap();
      }
      state := FoundResource;
      stepsAfterFound := 0;
      if breed == Red {
        world.redEat := world.redEat + 1;
      } else {
        world.blueEat := world.blueEat + 1;
      }
    }
  }
}
