/** Missing-value imputation and the two row filters
    (functions.py: fill_missing_values, remove_few_entries, drop_NaN). */
module Cleaning {
  import opened Seqs
  import opened Frames
  import Text

  // ---------------------------------------------------------------- fill_missing_values

  predicate HasQuestionMark(c: Cell)
  {
    c.Str? && '?' in c.s
  }

  /** The regex replacement of `?` by NaN on every cell: a string containing `?` becomes missing. */
  function ClearQuestion(c: Cell): (r: Cell)
    ensures HasQuestionMark(c) ==> r == Missing
    ensures !HasQuestionMark(c) ==> r == c
  {
    if HasQuestionMark(c) then Missing else c
  }

  /** `f` applied to column `j` of every row; nothing else changes. */
  function MapColumn(t: Table, j: nat, f: Cell -> Cell): (u: Table)
    requires WellFormed(t) && j < |t.columns|
    ensures WellFormed(u) && u.columns == t.columns && |u.rows| == |t.rows|
    ensures forall i :: 0 <= i < |t.rows| ==>
      u.rows[i].key == t.rows[i].key && u.rows[i].cells[j] == f(t.rows[i].cells[j]) &&
      forall k :: 0 <= k < |t.columns| && k != j ==> u.rows[i].cells[k] == t.rows[i].cells[k]
  {
    Table(t.columns, seq(|t.rows|, i requires 0 <= i < |t.rows| => SetCell(t.rows[i], j, f(t.rows[i].cells[j]))))
  }

  /** `df.replace('\?', NaN, regex=True)` over the whole table. */
  function ClearQuestions(t: Table): (u: Table)
    requires WellFormed(t)
    ensures WellFormed(u) && u.columns == t.columns && |u.rows| == |t.rows|
    ensures forall i :: 0 <= i < |t.rows| ==>
      (u.rows[i].key == t.rows[i].key &&
       forall k :: 0 <= k < |t.columns| ==> u.rows[i].cells[k] == ClearQuestion(t.rows[i].cells[k]))
  {
    Table(t.columns, seq(|t.rows|, i requires 0 <= i < |t.rows| =>
      Row(t.rows[i].key, seq(|t.rows[i].cells|, k requires 0 <= k < |t.rows[i].cells| => ClearQuestion(t.rows[i].cells[k])))))
  }

  /** The TEMPERATURE cell after the group removal and the conversion to a number: a string
      loses its parenthesised groups and is parsed; any other cell is not a string and
      becomes missing; a string that does not parse raises. */
  function TemperatureCell(c: Cell, parseReal: string -> Option<real>): (r: Result<Cell>)
    ensures r.Err? ==> r.error == NotANumber("TEMPERATURE")
    ensures r.Ok? ==> r.value.Missing? || r.value.Num?
  {
    match c
    case Str(s) =>
      (match parseReal(Text.StripGroups(s))
       case Some(v) => Ok(Num(v))
       case None => Err(NotANumber("TEMPERATURE")))
    case _ => Ok(Missing)
  }

  /** `fillna(rt)` on one cell. */
  function FillCell(c: Cell, rt: real): (r: Cell)
    ensures r != Missing
    ensures c != Missing ==> r == c
  {
    if c == Missing then Num(rt) else c
  }

  /** `replace('?', rt)` on one cell: only a cell equal to the string `?` changes. */
  function ReplaceQuestionCell(c: Cell, rt: real): (r: Cell)
    ensures c != Str("?") ==> r == c
  {
    if c == Str("?") then Num(rt) else c
  }

  /** All TEMPERATURE cells converted, or the error of the first that does not convert. */
  function ConvertTemperatures(t: Table, j: nat, parseReal: string -> Option<real>): (r: Result<Table>)
    requires WellFormed(t) && j < |t.columns|
    ensures r.Ok? <==> forall i :: 0 <= i < |t.rows| ==> TemperatureCell(t.rows[i].cells[j], parseReal).Ok?
    ensures r.Err? ==> r.error == NotANumber("TEMPERATURE")
    ensures r.Ok? ==> WellFormed(r.value) && r.value.columns == t.columns && |r.value.rows| == |t.rows|
    ensures r.Ok? ==> forall i :: 0 <= i < |t.rows| ==>
      r.value.rows[i].key == t.rows[i].key &&
      r.value.rows[i].cells[j] == TemperatureCell(t.rows[i].cells[j], parseReal).value &&
      forall k :: 0 <= k < |t.columns| && k != j ==> r.value.rows[i].cells[k] == t.rows[i].cells[k]
  {
    if forall i :: 0 <= i < |t.rows| ==> TemperatureCell(t.rows[i].cells[j], parseReal).Ok? then
      Ok(Table(t.columns, seq(|t.rows|, i requires 0 <= i < |t.rows| =>
        SetCell(t.rows[i], j, TemperatureCell(t.rows[i].cells[j], parseReal).value))))
    else Err(NotANumber("TEMPERATURE"))
  }

  /** fill_missing_values; `rp` is accepted and never read. */
  function FillMissingValues(t: Table, rt: real, rp: real, parseReal: string -> Option<real>): (r: Result<Table>)
    requires WellFormed(t)
    ensures "TEMPERATURE" !in t.columns ==> r == Err(MissingColumn("TEMPERATURE"))
    ensures "TEMPERATURE" in t.columns && "PRESSURE" !in t.columns ==>
      r.Err? && r.error in {MissingColumn("PRESSURE"), NotANumber("TEMPERATURE")}
    ensures "TEMPERATURE" in t.columns && "PRESSURE" in t.columns ==>
      (r.Ok? <==> forall i :: 0 <= i < |t.rows| ==> TemperatureCell(ClearQuestion(CellAt(t, i, "TEMPERATURE")), parseReal).Ok?)
    ensures "TEMPERATURE" in t.columns && "PRESSURE" in t.columns && r.Err? ==> r.error == NotANumber("TEMPERATURE")
    ensures r.Ok? ==>
      "TEMPERATURE" in t.columns && "PRESSURE" in t.columns &&
      WellFormed(r.value) && r.value.columns == t.columns && |r.value.rows| == |t.rows|
  {
    var u := ClearQuestions(t);
    if "TEMPERATURE" !in u.columns then Err(MissingColumn("TEMPERATURE"))
    else
      var jt := Find(u.columns, "TEMPERATURE");
      assert forall i :: 0 <= i < |t.rows| ==> u.rows[i].cells[jt] == ClearQuestion(CellAt(t, i, "TEMPERATURE"));
      match ConvertTemperatures(u, jt, parseReal)
      case Err(e) => Err(e)
      case Ok(converted) =>
        var filled := MapColumn(MapColumn(converted, jt, c => FillCell(c, rt)), jt, c => ReplaceQuestionCell(c, rt));
        if "PRESSURE" !in filled.columns then Err(MissingColumn("PRESSURE"))
        else
          var jp := Find(filled.columns, "PRESSURE");
          Ok(MapColumn(MapColumn(filled, jp, c => FillCell(c, rt)), jp, c => ReplaceQuestionCell(c, rt)))
  }

  /** Conversion fails exactly when some TEMPERATURE string, once its groups are removed,
      does not parse. */
  lemma FillMissingValuesFails(t: Table, rt: real, rp: real, parseReal: string -> Option<real>)
    requires WellFormed(t) && "TEMPERATURE" in t.columns
    ensures FillMissingValues(t, rt, rp, parseReal) == Err(NotANumber("TEMPERATURE")) <==>
      exists i :: 0 <= i < |t.rows| && TemperatureCell(ClearQuestion(CellAt(t, i, "TEMPERATURE")), parseReal).Err?
  {
    var u := ClearQuestions(t);
    var jt := Find(u.columns, "TEMPERATURE");
    assert forall i :: 0 <= i < |t.rows| ==> u.rows[i].cells[jt] == ClearQuestion(CellAt(t, i, "TEMPERATURE"));
  }

  /** After fill_missing_values no TEMPERATURE or PRESSURE cell is missing; a TEMPERATURE is
      the parsed value of its string, or `rt`; a PRESSURE that was present and had no `?` is
      unchanged, any other is `rt`; every other cell only lost its `?` strings. */
  lemma FilledCells(t: Table, rt: real, rp: real, parseReal: string -> Option<real>, i: nat)
    requires WellFormed(t) && FillMissingValues(t, rt, rp, parseReal).Ok? && i < |t.rows|
    ensures var u := FillMissingValues(t, rt, rp, parseReal).value;
      var temp := ClearQuestion(CellAt(t, i, "TEMPERATURE"));
      var press := ClearQuestion(CellAt(t, i, "PRESSURE"));
      CellAt(u, i, "TEMPERATURE") != Missing && CellAt(u, i, "PRESSURE") != Missing &&
      CellAt(u, i, "TEMPERATURE") == (if temp.Str? then Num(parseReal(Text.StripGroups(temp.s)).value) else Num(rt)) &&
      CellAt(u, i, "PRESSURE") == (if press == Missing then Num(rt) else press) &&
      u.rows[i].key == t.rows[i].key &&
      forall k :: 0 <= k < |t.columns| && t.columns[k] != "TEMPERATURE" && t.columns[k] != "PRESSURE" ==>
        u.rows[i].cells[k] == ClearQuestion(t.rows[i].cells[k])
  {
    var u := ClearQuestions(t);
    var jt := Find(u.columns, "TEMPERATURE");
    var converted := ConvertTemperatures(u, jt, parseReal).value;
    assert converted.rows[i].cells[jt] == TemperatureCell(u.rows[i].cells[jt], parseReal).value;
  }

  /** The pressure default is never used: the result does not depend on `rp`. */
  lemma PressureDefaultUnused(t: Table, rt: real, rp1: real, rp2: real, parseReal: string -> Option<real>)
    requires WellFormed(t)
    ensures FillMissingValues(t, rt, rp1, parseReal) == FillMissingValues(t, rt, rp2, parseReal)
  {
  }

  /** Neither `replace('?', rt)` can fire: the first step left no string containing `?`. */
  lemma QuestionReplaceIsNoOp(t: Table, i: nat, k: nat, rt: real)
    requires WellFormed(t) && i < |t.rows| && k < |t.columns|
    ensures ReplaceQuestionCell(ClearQuestions(t).rows[i].cells[k], rt) == ClearQuestions(t).rows[i].cells[k]
  {
    assert '?' in "?";
  }

  /** `"300(5)"` becomes `"300"` before it is parsed. */
  lemma TemperatureExample()
    ensures Text.StripGroups("300(5)") == "300"
  {
    Text.StripGroupsFirst("300", "5", "");
    assert "300" + "(" + "5" + ")" + "" == "300(5)";
  }

  // ---------------------------------------------------------------- remove_few_entries

  /** A crystal: the (FORMULA, SPACEGROUP_SYM) pair of a row, or None when either is missing. */
  function GroupKey(r: Row, jf: nat, js: nat): Option<(Cell, Cell)>
  {
    if jf < |r.cells| && js < |r.cells| && r.cells[jf] != Missing && r.cells[js] != Missing
    then Some((r.cells[jf], r.cells[js]))
    else None
  }

  function InGroup(jf: nat, js: nat, g: (Cell, Cell)): Row -> bool
  {
    r => GroupKey(r, jf, js) == Some(g)
  }

  /** The rows of crystal `g`, in order. */
  function GroupRows(rows: seq<Row>, jf: nat, js: nat, g: (Cell, Cell)): seq<Row>
  {
    Filter(rows, InGroup(jf, js, g))
  }

  /** The crystals that occur in `rows`. */
  function Groups(rows: seq<Row>, jf: nat, js: nat): set<(Cell, Cell)>
  {
    set r | r in rows && GroupKey(r, jf, js).Some? :: GroupKey(r, jf, js).value
  }

  /** The row belongs to a crystal with at least `num` rows in `rows`. */
  function LargeGroup(rows: seq<Row>, jf: nat, js: nat, num: int): Row -> bool
  {
    r => GroupKey(r, jf, js).Some? && |GroupRows(rows, jf, js, GroupKey(r, jf, js).value)| >= num
  }

  datatype EntryCounts = EntryCounts(keptEntries: int, removedEntries: int, keptCrystals: int, removedCrystals: int)

  /** The rows of `t` whose crystal has at least `num` rows, in order. */
  function KeptRows(t: Table, num: int): (kept: seq<Row>)
    requires WellFormed(t)
    ensures SubseqOf(kept, t.rows) && |kept| <= |t.rows|
    ensures forall r :: r in kept ==> r in t.rows
  {
    Filter(t.rows, LargeGroup(t.rows, Find(t.columns, "FORMULA"), Find(t.columns, "SPACEGROUP_SYM"), num))
  }

  /** The crystals of `rows` with at least, or fewer than, `num` rows. */
  function LargeGroups(rows: seq<Row>, jf: nat, js: nat, num: int): set<(Cell, Cell)>
  {
    set g | g in Groups(rows, jf, js) && |GroupRows(rows, jf, js, g)| >= num
  }

  function SmallGroups(rows: seq<Row>, jf: nat, js: nat, num: int): set<(Cell, Cell)>
  {
    set g | g in Groups(rows, jf, js) && |GroupRows(rows, jf, js, g)| < num
  }

  /** remove_few_entries: the rows of every crystal with at least `num` rows, and the counts. */
  function RemoveFewEntries(t: Table, num: int): (r: Result<(Table, EntryCounts)>)
    requires WellFormed(t)
    ensures "FORMULA" !in t.columns ==> r == Err(MissingColumn("FORMULA"))
    ensures "FORMULA" in t.columns && "SPACEGROUP_SYM" !in t.columns ==> r == Err(MissingColumn("SPACEGROUP_SYM"))
    ensures r.Ok? <==> "FORMULA" in t.columns && "SPACEGROUP_SYM" in t.columns
    ensures r.Ok? ==> r.value.0.columns == t.columns && r.value.0.rows == KeptRows(t, num) && WellFormed(r.value.0)
  {
    if "FORMULA" !in t.columns then Err(MissingColumn("FORMULA"))
    else if "SPACEGROUP_SYM" !in t.columns then Err(MissingColumn("SPACEGROUP_SYM"))
    else
      var jf, js := Find(t.columns, "FORMULA"), Find(t.columns, "SPACEGROUP_SYM");
      var kept := KeptRows(t, num);
      assert WellFormed(Table(t.columns, kept)) by {
        forall i | 0 <= i < |kept| ensures |kept[i].cells| == |t.columns| {
          assert kept[i] in t.rows;
        }
      }
      var counts := EntryCounts(|kept|, |t.rows| - |kept|, |Groups(kept, jf, js)|,
                                |Groups(t.rows, jf, js)| - |Groups(kept, jf, js)|);
      Ok((Table(t.columns, kept), counts))
  }

  /** The floor holds in both directions: a row is kept exactly when its crystal has at
      least `num` rows; rows without a crystal are dropped. A kept crystal keeps all of
      its rows. */
  lemma GroupFloor(t: Table, num: int, r: Row)
    requires WellFormed(t) && r in t.rows
    ensures var jf, js := Find(t.columns, "FORMULA"), Find(t.columns, "SPACEGROUP_SYM");
      var kept := KeptRows(t, num);
      (r in kept <==> GroupKey(r, jf, js).Some? && |GroupRows(t.rows, jf, js, GroupKey(r, jf, js).value)| >= num) &&
      (r in kept ==> GroupRows(kept, jf, js, GroupKey(r, jf, js).value) == GroupRows(t.rows, jf, js, GroupKey(r, jf, js).value))
  {
    var jf, js := Find(t.columns, "FORMULA"), Find(t.columns, "SPACEGROUP_SYM");
    var keep := LargeGroup(t.rows, jf, js, num);
    if r in KeptRows(t, num) {
      var g := GroupKey(r, jf, js).value;
      forall x | x in t.rows && InGroup(jf, js, g)(x) ensures keep(x) {
        assert GroupKey(x, jf, js).value == g;
      }
      FilterFilterSubsumed(t.rows, keep, InGroup(jf, js, g));
    }
  }

  /** The kept crystals are exactly the crystals with at least `num` rows. */
  lemma KeptGroups(t: Table, num: int)
    requires WellFormed(t)
    ensures var jf, js := Find(t.columns, "FORMULA"), Find(t.columns, "SPACEGROUP_SYM");
      Groups(KeptRows(t, num), jf, js) == LargeGroups(t.rows, jf, js, num)
  {
    var jf, js := Find(t.columns, "FORMULA"), Find(t.columns, "SPACEGROUP_SYM");
    var kept := KeptRows(t, num);
    forall g | g in Groups(kept, jf, js) ensures g in LargeGroups(t.rows, jf, js, num) {
      var r :| r in kept && GroupKey(r, jf, js).Some? && GroupKey(r, jf, js).value == g;
      GroupFloor(t, num, r);
    }
    forall g | g in LargeGroups(t.rows, jf, js, num) ensures g in Groups(kept, jf, js) {
      var r :| r in t.rows && GroupKey(r, jf, js).Some? && GroupKey(r, jf, js).value == g;
      GroupFloor(t, num, r);
    }
  }

  /** The counts add up: kept and removed entries make the input row count, and the removed
      crystals are exactly those with fewer than `num` rows. */
  lemma GroupCounts(t: Table, num: int)
    requires WellFormed(t) && RemoveFewEntries(t, num).Ok?
    ensures var jf, js := Find(t.columns, "FORMULA"), Find(t.columns, "SPACEGROUP_SYM");
      var counts := RemoveFewEntries(t, num).value.1;
      counts.keptCrystals == |LargeGroups(t.rows, jf, js, num)| &&
      counts.removedCrystals == |SmallGroups(t.rows, jf, js, num)| &&
      counts.keptEntries == |RemoveFewEntries(t, num).value.0.rows| &&
      counts.removedEntries == |t.rows| - counts.keptEntries && 0 <= counts.keptEntries <= |t.rows|
  {
    var jf, js := Find(t.columns, "FORMULA"), Find(t.columns, "SPACEGROUP_SYM");
    KeptGroups(t, num);
    GroupsSplit(t.rows, jf, js, num);
  }

  /** Every crystal is either large or small. */
  lemma GroupsSplit(rows: seq<Row>, jf: nat, js: nat, num: int)
    ensures |Groups(rows, jf, js)| == |LargeGroups(rows, jf, js, num)| + |SmallGroups(rows, jf, js, num)|
  {
    var large, small := LargeGroups(rows, jf, js, num), SmallGroups(rows, jf, js, num);
    assert Groups(rows, jf, js) == large + small;
    assert large * small == {};
  }

  // ---------------------------------------------------------------- drop_NaN

  function PresentAt(k: nat): Row -> bool
  {
    r => Present(r, k)
  }

  /** Number of rows with a value in column `k`. */
  function Count(rows: seq<Row>, k: nat): nat
  {
    |Filter(rows, PresentAt(k))|
  }

  /** Whether column `k` survives both column drops: some value, and at least `thresh` values. */
  function ColumnKept(rows: seq<Row>, thresh: int): nat -> bool
  {
    (k: nat) => Count(rows, k) >= 1 && Count(rows, k) >= thresh
  }

  /** The row has a value at every position of `idx`. */
  function AllPresent(idx: seq<nat>): Row -> bool
  {
    r => forall p :: 0 <= p < |idx| ==> Present(r, idx[p])
  }

  datatype DropReport = DropReport(table: Table, keptEntries: int, removedEntries: int)

  /** The rows left by the first step: those with a TEMPERATURE. */
  function WithTemperature(t: Table): seq<Row>
    requires WellFormed(t)
  {
    Filter(t.rows, PresentAt(Find(t.columns, "TEMPERATURE")))
  }

  /** The positions of the columns that survive both column drops: among the rows with a
      TEMPERATURE a column needs one value, and at least `N / 5` values, N the INPUT row count. */
  function KeptColumns(t: Table): (idx: seq<nat>)
    requires WellFormed(t)
    ensures forall p :: 0 <= p < |idx| ==> idx[p] < |t.columns|
    ensures Increasing(idx)
    ensures forall k: nat :: k in idx <==>
      k < |t.columns| && Count(WithTemperature(t), k) >= 1 && Count(WithTemperature(t), k) >= |t.rows| / 5
  {
    var keep := ColumnKept(WithTemperature(t), |t.rows| / 5);
    var idx := Filter<nat>(Range(|t.columns|), keep);
    forall k: nat | k < |t.columns| && keep(k) ensures k in idx {
      assert Range(|t.columns|)[k] == k;
    }
    forall p | 0 <= p < |idx| ensures idx[p] < |t.columns| {
      assert idx[p] in idx;
    }
    RangeIncreasing(|t.columns|);
    FilterIncreasing(Range(|t.columns|), keep);
    idx
  }

  function Selector(idx: seq<nat>): Row -> Row
  {
    r => SelectRow(r, idx)
  }

  /** drop_NaN: rows without a TEMPERATURE, columns with no value, columns with fewer values
      than a fifth of the INPUT row count, then rows with any missing value left. */
  function DropNaN(t: Table): (r: Result<DropReport>)
    requires WellFormed(t)
    ensures r.Err? <==> "TEMPERATURE" !in t.columns
    ensures r.Err? ==> r.error == MissingColumn("TEMPERATURE")
    ensures r.Ok? ==> r.value.table.columns == seq(|KeptColumns(t)|, p requires 0 <= p < |KeptColumns(t)| => t.columns[KeptColumns(t)[p]])
    ensures r.Ok? ==> r.value.keptEntries == |r.value.table.rows| && r.value.removedEntries == |t.rows| - r.value.keptEntries
  {
    if "TEMPERATURE" !in t.columns then Err(MissingColumn("TEMPERATURE"))
    else
      var idx := KeptColumns(t);
      var rows4 := Filter(Map(WithTemperature(t), Selector(idx)), AllPresent(Range(|idx|)));
      Ok(DropReport(Table(seq(|idx|, p requires 0 <= p < |idx| => t.columns[idx[p]]), rows4),
                    |rows4|, |t.rows| - |rows4|))
  }

  /** Both conditions under which drop_NaN keeps a row. */
  function Survives(t: Table): Row -> bool
    requires WellFormed(t)
  {
    r => Present(r, Find(t.columns, "TEMPERATURE")) && AllPresent(KeptColumns(t))(r)
  }

  /** The output rows are, in input order, the input rows that have a TEMPERATURE and a value
      in every kept column, restricted to the kept columns; so no output cell is missing and
      the kept and removed entries add up to the input row count. */
  lemma DropNaNRows(t: Table)
    requires WellFormed(t) && "TEMPERATURE" in t.columns
    ensures var rep := DropNaN(t).value;
      rep.table.rows == Map(Filter(t.rows, Survives(t)), Selector(KeptColumns(t))) &&
      (forall i, p :: 0 <= i < |rep.table.rows| && 0 <= p < |rep.table.rows[i].cells| ==> rep.table.rows[i].cells[p] != Missing) &&
      WellFormed(rep.table) &&
      rep.keptEntries == |rep.table.rows| &&
      rep.removedEntries == |t.rows| - rep.keptEntries && 0 <= rep.keptEntries <= |t.rows|
  {
    var jt := Find(t.columns, "TEMPERATURE");
    var rows1 := WithTemperature(t);
    var idx := KeptColumns(t);
    var sel := Selector(idx);
    var full := AllPresent(Range(|idx|));
    forall r | r in rows1 ensures full(sel(r)) == AllPresent(idx)(r) {
      SelectedAllPresent(r, idx);
    }
    FilterMap(rows1, sel, full, AllPresent(idx));
    FilterFilter(t.rows, PresentAt(jt), AllPresent(idx), Survives(t));
    var rows4 := DropNaN(t).value.table.rows;
    assert rows4 == Filter(Map(rows1, sel), full);
    forall i, p | 0 <= i < |rows4| && 0 <= p < |rows4[i].cells|
      ensures rows4[i].cells[p] != Missing
    {
      assert rows4[i] in rows4;
      assert full(rows4[i]);
      assert Range(|idx|)[p] == p;
    }
    forall i | 0 <= i < |rows4| ensures |rows4[i].cells| == |idx| {
      assert rows4[i] in rows4;
      assert rows4[i] in Map(rows1, sel);
    }
  }

  lemma SelectedAllPresent(r: Row, idx: seq<nat>)
    ensures AllPresent(Range(|idx|))(SelectRow(r, idx)) == AllPresent(idx)(r)
  {
    var s := SelectRow(r, idx);
    if AllPresent(idx)(r) {
      forall p | 0 <= p < |idx| ensures Present(s, Range(|idx|)[p]) {
        assert Range(|idx|)[p] == p;
        assert Present(r, idx[p]);
      }
    } else {
      var p :| 0 <= p < |idx| && !Present(r, idx[p]);
      assert Range(|idx|)[p] == p;
      assert !Present(s, Range(|idx|)[p]);
    }
  }

  /** The TEMPERATURE column itself survives only when at least a fifth of the input rows
      (and at least one) have a temperature. */
  lemma DropNaNKeepsTemperature(t: Table)
    requires WellFormed(t) && "TEMPERATURE" in t.columns
    ensures var jt := Find(t.columns, "TEMPERATURE");
      jt in KeptColumns(t) <==> |WithTemperature(t)| >= 1 && |WithTemperature(t)| >= |t.rows| / 5
  {
    var jt := Find(t.columns, "TEMPERATURE");
    FilterFilterSubsumed(t.rows, PresentAt(jt), PresentAt(jt));
  }
}
