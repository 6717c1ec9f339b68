/**
 * The smell (pheromone) field as a value: what an ant deposits on its cell
 * (World.add_smell) and the global decay at the end of a step
 * (World.one_step). The field is a sequence of rows, indexed [x][y] as the
 * source's numpy array is.
 */
module Scent {

  /** Strength of the trail an ant leaves `steps` cells after it found a resource. */
  function Trail(steps: nat, rate: real): real {
    100.0 - steps as real * (rate + 0.01)
  }

  /** The trail is full strength at the resource and weakens with every cell walked away from it. */
  lemma TrailWeakens(steps: nat, more: nat, rate: real)
    requires 0.0 <= rate && steps < more
    ensures Trail(more, rate) < Trail(steps, rate) <= Trail(0, rate) == 100.0
  {
    assert (more - steps) as real * (rate + 0.01) > 0.0;
    assert more as real * (rate + 0.01) == steps as real * (rate + 0.01) + (more - steps) as real * (rate + 0.01);
    assert steps as real * (rate + 0.01) >= 0.0;
  }

  /** add_smell: a cell's smell is raised to the trail strength, never lowered. */
  function Deposit(current: real, steps: nat, rate: real): (r: real)
    ensures current <= r
    ensures r == current || r == Trail(steps, rate)
    ensures Trail(steps, rate) <= r
  {
    var incN := Trail(steps, rate);
    if current < incN then incN else current
  }

  /** A deposit keeps a smell in [0, 100]. */
  lemma DepositInBounds(current: real, steps: nat, rate: real)
    requires 0.0 <= current <= 100.0 && 0.0 <= rate
    ensures 0.0 <= Deposit(current, steps, rate) <= 100.0
  {
    assert steps as real * (rate + 0.01) >= 0.0;
  }

  /** smells -= rate, then smells[smells < 0] = 0, for one cell. */
  function DecayCell(v: real, rate: real): (r: real)
    ensures 0.0 <= r
    ensures r == v - rate || (r == 0.0 && v - rate < 0.0)
  {
    var lowered := v - rate;
    if lowered < 0.0 then 0.0 else lowered
  }

  function DecayRow(row: seq<real>, rate: real): (r: seq<real>)
    ensures |r| == |row|
    ensures forall j | 0 <= j < |row| :: r[j] == DecayCell(row[j], rate)
  {
    seq(|row|, j requires 0 <= j < |row| => DecayCell(row[j], rate))
  }

  /** The field after one decay of every cell. */
  function Decayed(field: seq<seq<real>>, rate: real): (r: seq<seq<real>>)
    ensures |r| == |field|
    ensures forall i | 0 <= i < |field| :: r[i] == DecayRow(field[i], rate)
  {
    seq(|field|, i requires 0 <= i < |field| => DecayRow(field[i], rate))
  }

  function RowTotal(row: seq<real>): real
    decreases |row|
  {
    if row == [] then 0.0 else RowTotal(row[..|row| - 1]) + row[|row| - 1]
  }

  /** smells.sum() */
  function Total(field: seq<seq<real>>): real
    decreases |field|
  {
    if field == [] then 0.0 else Total(field[..|field| - 1]) + RowTotal(field[|field| - 1])
  }

  ghost predicate RowInBounds(row: seq<real>) {
    forall j | 0 <= j < |row| :: 0.0 <= row[j] <= 100.0
  }

  /** Every smell lies in [0, 100]. */
  ghost predicate InBounds(field: seq<seq<real>>) {
    forall i | 0 <= i < |field| :: RowInBounds(field[i])
  }

  /** Decay keeps every smell in [0, 100]. */
  lemma DecayInBounds(field: seq<seq<real>>, rate: real)
    requires InBounds(field) && 0.0 <= rate
    ensures InBounds(Decayed(field, rate))
  {
  }

  /** With no negative smell, a row sums to a positive value exactly when some cell smells. */
  lemma {:induction false} RowTotalPositive(row: seq<real>)
    requires RowInBounds(row)
    ensures 0.0 <= RowTotal(row)
    ensures 0.0 < RowTotal(row) <==> exists j | 0 <= j < |row| :: row[j] > 0.0
    decreases |row|
  {
    if row != [] {
      var n := |row| - 1;
      RowTotalPositive(row[..n]);
      if exists j | 0 <= j < n :: row[..n][j] > 0.0 {
        var j :| 0 <= j < n && row[..n][j] > 0.0;
        assert row[j] > 0.0;
      }
      if exists j | 0 <= j < |row| :: row[j] > 0.0 {
        var j :| 0 <= j < |row| && row[j] > 0.0;
        if j < n {
          assert row[..n][j] > 0.0;
        }
      }
    }
  }

  /** With no negative smell, the field sums to a positive value exactly when some cell smells. */
  lemma {:induction false} TotalPositive(field: seq<seq<real>>)
    requires InBounds(field)
    ensures 0.0 <= Total(field)
    ensures 0.0 < Total(field) <==>
            exists i, j | 0 <= i < |field| && 0 <= j < |field[i]| :: field[i][j] > 0.0
    decreases |field|
  {
    if field != [] {
      var n := |field| - 1;
      TotalPositive(field[..n]);
      RowTotalPositive(field[n]);
      if exists i, j | 0 <= i < n && 0 <= j < |field[..n][i]| :: field[..n][i][j] > 0.0 {
        var i, j :| 0 <= i < n && 0 <= j < |field[..n][i]| && field[..n][i][j] > 0.0;
        assert field[i][j] > 0.0;
      }
      if exists i, j | 0 <= i < |field| && 0 <= j < |field[i]| :: field[i][j] > 0.0 {
        var i, j :| 0 <= i < |field| && 0 <= j < |field[i]| && field[i][j] > 0.0;
        if i < n {
          assert field[..n][i][j] > 0.0;
        }
      }
    }
  }

  lemma {:induction false} DecayLowersRow(row: seq<real>, rate: real)
    requires RowInBounds(row) && 0.0 < rate
    ensures RowTotal(DecayRow(row, rate)) <= RowTotal(row)
    ensures (exists j | 0 <= j < |row| :: row[j] > 0.0) ==> RowTotal(DecayRow(row, rate)) < RowTotal(row)
    decreases |row|
  {
    if row != [] {
      var n := |row| - 1;
      DecayLowersRow(row[..n], rate);
      assert DecayRow(row, rate)[..n] == DecayRow(row[..n], rate);
      if exists j | 0 <= j < |row| :: row[j] > 0.0 {
        var j :| 0 <= j < |row| && row[j] > 0.0;
        if j < n {
          assert row[..n][j] > 0.0;
        }
      }
    }
  }

  /**
   * One decay step strictly lowers the total of a field that still smells
   * somewhere, and never raises it.
   */
  lemma {:induction false} DecayLowersTotal(field: seq<seq<real>>, rate: real)
    requires InBounds(field) && 0.0 < rate
    ensures Total(Decayed(field, rate)) <= Total(field)
    ensures 0.0 < Total(field) ==> Total(Decayed(field, rate)) < Total(field)
    decreases |field|
  {
    TotalPositive(field);
    if field != [] {
      var n := |field| - 1;
      DecayLowersTotal(field[..n], rate);
      DecayLowersRow(field[n], rate);
      assert Decayed(field, rate)[..n] == Decayed(field[..n], rate);
      TotalPositive(field[..n]);
      RowTotalPositive(field[n]);
    }
  }
}
