/** Temperature binning (functions.py: temperature_bins): every TEMPERATURE that is one of
    the whole-step values `i * s, i * s + 1, ...` below `(i + 1) * s` is replaced by the
    midpoint of that bin, for each bin `i` below the number of steps the column spans. */
module Binning {
  import opened Frames

  /** Python's `round` on a number: the nearest integer, a tie going to the even one. */
  function RoundHalfEven(x: real): (r: int)
    ensures x - 0.5 <= r as real <= x + 0.5
    ensures (r as real == x - 0.5 || r as real == x + 0.5) ==> r % 2 == 0
  {
    var f := x.Floor;
    var frac := x - f as real;
    if frac < 0.5 then f
    else if frac > 0.5 then f + 1
    else if f % 2 == 0 then f
    else f + 1
  }

  lemma RoundExamples()
    ensures RoundHalfEven(2.5) == 2 && RoundHalfEven(3.5) == 4 && RoundHalfEven(-0.5) == 0
    ensures RoundHalfEven(2.4) == 2 && RoundHalfEven(2.6) == 3
  {
  }

  /** The least of the values. */
  function Min(s: seq<real>): (m: real)
    requires |s| > 0
    ensures m in s
    ensures forall x :: x in s ==> m <= x
  {
    if |s| == 1 then s[0]
    else
      var rest := Min(s[1..]);
      assert forall x :: x in s ==> x == s[0] || x in s[1..];
      if s[0] <= rest then s[0] else rest
  }

  /** The greatest of the values. */
  function Max(s: seq<real>): (m: real)
    requires |s| > 0
    ensures m in s
    ensures forall x :: x in s ==> x <= m
  {
    if |s| == 1 then s[0]
    else
      var rest := Max(s[1..]);
      assert forall x :: x in s ==> x == s[0] || x in s[1..];
      if s[0] >= rest then s[0] else rest
  }

  /** `v` is one of the values `np.arange(i * s, (i + 1) * s, 1.0)` enumerates: `i * s + k`
      for a whole `k` with `0 <= k < s`. */
  predicate InBin(v: real, s: real, i: int)
  {
    var k := v - i as real * s;
    0.0 <= k < s && k.Floor as real == k
  }

  /** The mean of the two ends of bin `i`. */
  function Midpoint(s: real, i: int): real
  {
    (i as real * s + (i + 1) as real * s) / 2.0
  }

  /** All bins at once: the only bin `v` can fall in is the one whose interval contains it. */
  function BinValue(v: real, s: real, steps: int): real
  {
    if s > 0.0 then
      var i := (v / s).Floor;
      if 0 <= i < steps && InBin(v, s, i) then Midpoint(s, i) else v
    else v
  }

  /** One pass of the loop: the values of bin `i` replaced by its midpoint. */
  function ReplaceBin(vals: seq<real>, s: real, i: int): (r: seq<real>)
    ensures |r| == |vals|
  {
    seq(|vals|, p requires 0 <= p < |vals| => if InBin(vals[p], s, i) then Midpoint(s, i) else vals[p])
  }

  /** The loop run for its first `n` passes, one bin after the other. */
  function SequentialBins(vals: seq<real>, s: real, n: nat): (r: seq<real>)
    ensures |r| == |vals|
  {
    if n == 0 then vals else ReplaceBin(SequentialBins(vals, s, n - 1), s, n - 1)
  }

  // ---------------------------------------------------------------- the bins

  lemma InBinInterval(v: real, s: real, i: int)
    requires InBin(v, s, i)
    ensures i as real * s <= v < (i + 1) as real * s
  {
  }

  lemma MidpointInterval(s: real, i: int)
    requires s > 0.0
    ensures i as real * s <= Midpoint(s, i) < (i + 1) as real * s
    ensures Midpoint(s, i) == (2 * i + 1) as real * s / 2.0
  {
  }

  lemma DivMonotone(a: real, b: real, s: real)
    requires s > 0.0 && a <= b
    ensures a / s <= b / s
  {
    assert b / s - a / s == (b - a) / s;
  }

  lemma DivStrict(a: real, b: real, s: real)
    requires s > 0.0 && a < b
    ensures a / s < b / s
  {
    assert b / s - a / s == (b - a) / s;
  }

  lemma MulMonotone(a: real, b: real, s: real)
    requires s > 0.0 && a <= b
    ensures a * s <= b * s
  {
    assert b * s - a * s == (b - a) * s;
  }

  lemma MulStrict(a: real, b: real, s: real)
    requires s > 0.0 && a < b
    ensures a * s < b * s
  {
    assert b * s - a * s == (b - a) * s;
  }

  /** A non-negative number divided by `s` gives at least one half only for a positive `s`. */
  lemma QuotientSign(d: real, s: real)
    requires s != 0.0 && d >= 0.0 && d / s >= 0.5
    ensures s > 0.0
  {
    var q := d / s;
    assert q * s == d;
    DivStrict(0.0, d, q);
    CancelFactor(q, s);
  }

  lemma CancelFactor(q: real, s: real)
    requires q != 0.0
    ensures (q * s) / q == s
  {
  }

  /** The interval a value lies in is the floor of its quotient by the spacing. */
  lemma IntervalIsFloor(v: real, s: real, i: int)
    requires s > 0.0
    requires i as real * s <= v < (i + 1) as real * s
    ensures (v / s).Floor == i
  {
    DivMonotone(i as real * s, v, s);
    DivStrict(v, (i + 1) as real * s, s);
    assert (i as real * s) / s == i as real;
    assert ((i + 1) as real * s) / s == (i + 1) as real;
  }

  /** Every value lies in the interval of the floor of its quotient by the spacing. */
  lemma FloorInterval(v: real, s: real)
    requires s > 0.0
    ensures var i := (v / s).Floor; i as real * s <= v < (i + 1) as real * s
  {
    var q := v / s;
    var i := q.Floor;
    assert i as real <= q < (i + 1) as real;
    MulMonotone(i as real, q, s);
    MulStrict(q, (i + 1) as real, s);
    assert q * s == v;
    assert v < (i + 1) as real * s;
  }

  /** The bin intervals do not overlap. */
  lemma IntervalUnique(v: real, s: real, i: int, j: int)
    requires s > 0.0
    requires i as real * s <= v < (i + 1) as real * s
    requires j as real * s <= v < (j + 1) as real * s
    ensures i == j
  {
    IntervalIsFloor(v, s, i);
    IntervalIsFloor(v, s, j);
  }

  /** A value of bin `i`, for one of the first `steps` bins, becomes `(2i + 1) * s / 2`. */
  lemma BinToMidpoint(v: real, s: real, steps: int, i: int)
    requires s > 0.0 && 0 <= i < steps && InBin(v, s, i)
    ensures BinValue(v, s, steps) == (2 * i + 1) as real * s / 2.0
  {
    InBinInterval(v, s, i);
    IntervalIsFloor(v, s, i);
    MidpointInterval(s, i);
  }

  /** A value in none of the first `steps` bins is unchanged. */
  lemma OutsideBinsUnchanged(v: real, s: real, steps: int)
    requires forall i :: 0 <= i < steps ==> !InBin(v, s, i)
    ensures BinValue(v, s, steps) == v
  {
  }

  /** Binning moves a value by less than one spacing and never out of its interval. */
  lemma BinningMovesLittle(v: real, s: real, steps: int)
    requires s > 0.0
    ensures var i := (v / s).Floor; i as real * s <= BinValue(v, s, steps) < (i + 1) as real * s
  {
    var i := (v / s).Floor;
    FloorInterval(v, s);
    MidpointInterval(s, i);
  }

  /** Binning a binned value again, with the same bins, changes nothing. */
  lemma BinningIdempotent(v: real, s: real, steps: int)
    ensures BinValue(BinValue(v, s, steps), s, steps) == BinValue(v, s, steps)
  {
    if s > 0.0 {
      var i := (v / s).Floor;
      if 0 <= i < steps && InBin(v, s, i) {
        var m := Midpoint(s, i);
        MidpointInterval(s, i);
        IntervalIsFloor(m, s, i);
      }
    }
  }

  /** For a positive spacing the one-bin-after-the-other loop equals replacing every value
      by its bin's midpoint at once: a replaced value lies in the interval of the bin that
      replaced it, so no later pass touches it again. */
  lemma {:induction false} SequentialIsSimultaneous(vals: seq<real>, s: real, n: nat)
    requires s > 0.0
    ensures forall p :: 0 <= p < |vals| ==> SequentialBins(vals, s, n)[p] == BinValue(vals[p], s, n)
  {
    if n > 0 {
      SequentialIsSimultaneous(vals, s, n - 1);
      forall p | 0 <= p < |vals| ensures SequentialBins(vals, s, n)[p] == BinValue(vals[p], s, n) {
        SequentialStep(vals[p], s, n - 1);
      }
    }
  }

  lemma SequentialStep(v: real, s: real, i: nat)
    requires s > 0.0
    ensures var w := BinValue(v, s, i);
      (if InBin(w, s, i) then Midpoint(s, i) else w) == BinValue(v, s, i + 1)
  {
    var j := (v / s).Floor;
    var w := BinValue(v, s, i);
    if 0 <= j < i && InBin(v, s, j) {
      MidpointInterval(s, j);
      if InBin(w, s, i) {
        InBinInterval(w, s, i);
        IntervalUnique(w, s, i, j);
      }
    } else if InBin(v, s, i) {
      InBinInterval(v, s, i);
      IntervalIsFloor(v, s, i);
    }
  }

  // ---------------------------------------------------------------- the table

  /** Every row has a number in column `j`. */
  predicate AllNumbers(rows: seq<Row>, j: nat)
  {
    forall i :: 0 <= i < |rows| ==> j < |rows[i].cells| && rows[i].cells[j].Num?
  }

  function Values(rows: seq<Row>, j: nat): (vs: seq<real>)
    requires AllNumbers(rows, j)
    ensures |vs| == |rows|
  {
    seq(|rows|, i requires 0 <= i < |rows| => rows[i].cells[j].v)
  }

  /** Column `j` of `t` set to the numbers `temps`, row by row. */
  function WithColumn(t: Table, j: nat, temps: seq<real>): (u: Table)
    requires WellFormed(t) && j < |t.columns| && |temps| == |t.rows|
    ensures WellFormed(u)
  {
    Table(t.columns, seq(|t.rows|, i requires 0 <= i < |t.rows| => SetCell(t.rows[i], j, Num(temps[i]))))
  }

  /** `round((end - start) / spacing)`: the number of passes the loop makes. */
  function Steps(vals: seq<real>, spacing: real): int
    requires |vals| > 0 && spacing != 0.0
  {
    RoundHalfEven((Max(vals) - Min(vals)) / spacing)
  }

  /** temperature_bins: a missing column, an empty column, a non-number and a zero spacing
      raise; otherwise every TEMPERATURE becomes its bin value and nothing else changes. */
  function BinnedTable(t: Table, spacing: real): (r: Result<Table>)
    requires WellFormed(t)
    ensures r.Err? <==>
      ("TEMPERATURE" !in t.columns || |t.rows| == 0 ||
       !AllNumbers(t.rows, Find(t.columns, "TEMPERATURE")) || spacing == 0.0)
    ensures "TEMPERATURE" !in t.columns ==> r == Err(MissingColumn("TEMPERATURE"))
    ensures "TEMPERATURE" in t.columns && |t.rows| == 0 ==> r == Err(EmptyColumn("TEMPERATURE"))
    ensures r.Ok? ==> WellFormed(r.value) && r.value.columns == t.columns && |r.value.rows| == |t.rows|
    ensures r.Ok? ==> forall i :: 0 <= i < |t.rows| ==>
      (r.value.rows[i].key == t.rows[i].key &&
       CellAt(r.value, i, "TEMPERATURE") ==
         Num(BinValue(CellAt(t, i, "TEMPERATURE").v, spacing, Steps(Values(t.rows, Find(t.columns, "TEMPERATURE")), spacing))) &&
       forall k :: 0 <= k < |t.columns| && t.columns[k] != "TEMPERATURE" ==> r.value.rows[i].cells[k] == t.rows[i].cells[k])
  {
    if "TEMPERATURE" !in t.columns then Err(MissingColumn("TEMPERATURE"))
    else
      var j := Find(t.columns, "TEMPERATURE");
      if |t.rows| == 0 then Err(EmptyColumn("TEMPERATURE"))
      else if !AllNumbers(t.rows, j) then Err(NotANumber("TEMPERATURE"))
      else if spacing == 0.0 then Err(ZeroSpacing)
      else
        var vals := Values(t.rows, j);
        var steps := Steps(vals, spacing);
        Ok(WithColumn(t, j, seq(|vals|, p requires 0 <= p < |vals| => BinValue(vals[p], spacing, steps))))
  }

  /** The column spans no step when it is narrower than half a spacing, and for a negative
      spacing; a positive number of steps needs a positive spacing. */
  lemma StepsNeedPositiveSpacing(vals: seq<real>, spacing: real)
    requires |vals| > 0 && spacing != 0.0 && Steps(vals, spacing) > 0
    ensures spacing > 0.0
  {
    var d := Max(vals) - Min(vals);
    assert d >= 0.0 by {
      assert Min(vals) <= Max(vals);
    }
    QuotientSign(d, spacing);
  }

  /** When the loop makes no pass the table comes back unchanged. */
  lemma NoStepsNoChange(t: Table, spacing: real)
    requires WellFormed(t) && BinnedTable(t, spacing).Ok?
    requires Steps(Values(t.rows, Find(t.columns, "TEMPERATURE")), spacing) <= 0
    ensures BinnedTable(t, spacing).value == t
  {
    var j := Find(t.columns, "TEMPERATURE");
    var u := BinnedTable(t, spacing).value;
    forall i | 0 <= i < |t.rows| ensures u.rows[i] == t.rows[i] {
      assert u.rows[i].cells == t.rows[i].cells;
    }
  }

  /** One `replace(..., inplace=True)`: every value of bin `i` in `a` becomes the midpoint. */
  method ReplaceBinInPlace(a: array<real>, s: real, i: int)
    modifies a
    ensures a[..] == ReplaceBin(old(a[..]), s, i)
  {
    var p := 0;
    while p < a.Length
      invariant 0 <= p <= a.Length
      invariant forall q :: 0 <= q < p ==>
        a[q] == if InBin(old(a[q]), s, i) then Midpoint(s, i) else old(a[q])
      invariant forall q :: p <= q < a.Length ==> a[q] == old(a[q])
    {
      if InBin(a[p], s, i) {
        a[p] := Midpoint(s, i);
      }
      p := p + 1;
    }
  }

  /** After the loop the column holds the simultaneous bin values. */
  lemma LoopResult(vals: seq<real>, spacing: real, n: nat)
    requires |vals| > 0 && spacing != 0.0
    requires var steps := Steps(vals, spacing); (steps <= 0 && n == 0) || n == steps
    ensures SequentialBins(vals, spacing, n) ==
      seq(|vals|, p requires 0 <= p < |vals| => BinValue(vals[p], spacing, Steps(vals, spacing)))
  {
    if n > 0 {
      StepsNeedPositiveSpacing(vals, spacing);
      SequentialIsSimultaneous(vals, spacing, n);
    }
  }

  /** The loop of temperature_bins on a copy of the TEMPERATURE column, one bin per pass.
      Each pass replaces, in place, every value of that bin by the bin's midpoint. */
  method TemperatureBins(t: Table, spacing: real) returns (r: Result<Table>)
    requires WellFormed(t)
    ensures r == BinnedTable(t, spacing)
  {
    if "TEMPERATURE" !in t.columns {
      return Err(MissingColumn("TEMPERATURE"));
    }
    var j := Find(t.columns, "TEMPERATURE");
    if |t.rows| == 0 {
      return Err(EmptyColumn("TEMPERATURE"));
    }
    if !AllNumbers(t.rows, j) {
      return Err(NotANumber("TEMPERATURE"));
    }
    if spacing == 0.0 {
      return Err(ZeroSpacing);
    }
    var vals := Values(t.rows, j);
    var binned := BinColumn(vals, spacing);
    r := Ok(WithColumn(t, j, binned));
  }

  /** The loop itself, on an array holding a copy of the column. */
  method BinColumn(vals: seq<real>, spacing: real) returns (binned: seq<real>)
    requires |vals| > 0 && spacing != 0.0
    ensures binned == seq(|vals|, p requires 0 <= p < |vals| => BinValue(vals[p], spacing, Steps(vals, spacing)))
  {
    var steps := Steps(vals, spacing);
    var temps := new real[|vals|](p requires 0 <= p < |vals| => vals[p]);
    var i := 0;
    while i < steps
      invariant 0 <= i && (i <= steps || i == 0)
      invariant temps[..] == SequentialBins(vals, spacing, i)
    {
      ReplaceBinInPlace(temps, spacing, i);
      i := i + 1;
    }
    LoopResult(vals, spacing, i);
    binned := temps[..];
  }
}
