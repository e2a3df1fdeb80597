/** Column projection, renaming and per-column string coercion
    (functions.py: keep_columns, rename_columns, remove_characters). */
module Schema {
  import opened Seqs
  import opened Frames
  import opened Text

  /** The columns kept when no list is given. */
  const DEFAULT_COLUMNS: seq<string> := [
    "data_", "_chemical_formula_sum", "_space_group_name_H-M_alt", "_space_group_IT_number",
    "_diffrn_ambient_temperature", "_cell_length_a", "_cell_length_b", "_cell_length_c",
    "_cell_angle_alpha", "_cell_angle_beta", "_cell_angle_gamma", "_cell_volume",
    "_diffrn_ambient_pressure", "_exptl_crystal_density_diffrn", "_atom_type_symbol", "database",
    "_journal_year", "_journal_volume", "_journal_page_first", "_journal_page_last",
    "@module", "@class", "charge", "lattice", "sites"]

  /** The renaming used when no mapping is given (the space-group number label is spelt
      `SPCAEGROUP_NO` there). */
  const DEFAULT_RENAMES: map<string, string> := map[
    "_chemical_formula_sum" := "FORMULA",
    "_space_group_name_H-M_alt" := "SPACEGROUP_SYM",
    "_space_group_IT_number" := "SPCAEGROUP_NO",
    "_diffrn_ambient_temperature" := "TEMPERATURE",
    "_cell_length_a" := "CELL_LENGTH_A",
    "_cell_length_b" := "CELL_LENGTH_B",
    "_cell_length_c" := "CELL_LENGTH_C",
    "_cell_angle_alpha" := "ALPHA",
    "_cell_angle_beta" := "BETA",
    "_cell_angle_gamma" := "GAMMA",
    "_cell_volume" := "VOLUME",
    "_diffrn_ambient_pressure" := "PRESSURE",
    "_exptl_crystal_density_diffrn" := "DENSITY",
    "_atom_type_symbol" := "ELEMENT_COUNT",
    "database" := "DATABASE",
    "data_" := "ID",
    "_journal_year" := "REFERENCE"]

  // ---------------------------------------------------------------- keep_columns

  function Requested(request: seq<string>): seq<string>
  {
    if request == [] then DEFAULT_COLUMNS else request
  }

  /** Position of the first label of `cols` that `have` lacks, or `|cols|`. */
  function FirstAbsent(cols: seq<string>, have: seq<string>): (j: nat)
    ensures j <= |cols|
    ensures j < |cols| ==> cols[j] !in have
    ensures forall k :: 0 <= k < j ==> cols[k] in have
  {
    if cols == [] then 0
    else if cols[0] !in have then 0
    else 1 + FirstAbsent(cols[1..], have)
  }

  /** `df[cols]`: exactly the requested columns, in the requested order, with the rows
      and their index labels unchanged; a label the table lacks raises. */
  function KeepColumns(t: Table, request: seq<string>): (r: Result<Table>)
    requires WellFormed(t)
    ensures var cols := Requested(request);
      r.Ok? <==> forall k :: 0 <= k < |cols| ==> cols[k] in t.columns
    ensures var cols := Requested(request);
      r.Err? ==> exists k :: 0 <= k < |cols| && cols[k] !in t.columns && r.error == MissingColumn(cols[k])
    ensures var cols := Requested(request);
      r.Ok? ==> (WellFormed(r.value) && r.value.columns == cols && |r.value.rows| == |t.rows| &&
        forall i :: 0 <= i < |t.rows| ==>
          (r.value.rows[i].key == t.rows[i].key &&
           forall k :: 0 <= k < |cols| ==> r.value.rows[i].cells[k] == CellAt(t, i, cols[k])))
  {
    var cols := Requested(request);
    var j := FirstAbsent(cols, t.columns);
    if j < |cols| then Err(MissingColumn(cols[j]))
    else Ok(Select(t, seq(|cols|, k requires 0 <= k < |cols| => Find(t.columns, cols[k]))))
  }

  /** Keeping the same columns twice is keeping them once. */
  lemma KeepColumnsIdempotent(t: Table, request: seq<string>)
    requires WellFormed(t) && KeepColumns(t, request).Ok? && Distinct(Requested(request))
    ensures KeepColumns(KeepColumns(t, request).value, request) == KeepColumns(t, request)
  {
    var u := KeepColumns(t, request).value;
    KeepOwnColumns(u);
    assert KeepColumns(u, request) == KeepColumns(u, u.columns);
  }

  /** A table with distinct labels is left as it is by selecting all of its columns. */
  lemma KeepOwnColumns(u: Table)
    requires WellFormed(u) && Distinct(u.columns) && u.columns != []
    ensures KeepColumns(u, u.columns) == Ok(u)
  {
    var cols := u.columns;
    var idx := seq(|cols|, k requires 0 <= k < |cols| => Find(cols, cols[k]));
    forall k | 0 <= k < |cols|
      ensures idx[k] == k
    {
      var j := Find(cols, cols[k]);
      assert j < |cols| && cols[j] == cols[k];
    }
    var v := Select(u, idx);
    assert v.columns == cols;
    forall i | 0 <= i < |u.rows|
      ensures v.rows[i] == u.rows[i]
    {
      assert v.rows[i] == SelectRow(u.rows[i], idx);
      assert v.rows[i].cells == u.rows[i].cells;
    }
    assert v.rows == u.rows;
  }

  lemma DefaultColumnsDistinct()
    ensures |DEFAULT_COLUMNS| == 25 && Distinct(DEFAULT_COLUMNS)
  {
  }

  // ---------------------------------------------------------------- rename_columns

  function Mapping(m: map<string, string>): map<string, string>
  {
    if m == map[] then DEFAULT_RENAMES else m
  }

  /** The labels after `rename(columns=m)`: mapped labels replaced, all others kept. */
  function Relabel(columns: seq<string>, m: map<string, string>): (r: seq<string>)
    ensures |r| == |columns|
    ensures forall k :: 0 <= k < |columns| && columns[k] in m ==> r[k] == m[columns[k]]
    ensures forall k :: 0 <= k < |columns| && columns[k] !in m ==> r[k] == columns[k]
  {
    Map(columns, c => if c in m then m[c] else c)
  }

  /** `rename` followed by `set_index('ID')`: the one column labelled `ID` after renaming
      becomes the index and leaves the columns; none raises, and so do several. */
  function RenameColumns(t: Table, m: map<string, string>): (r: Result<Table>)
    requires WellFormed(t)
    ensures var names := Relabel(t.columns, Mapping(m));
      (multiset(names)["ID"] == 0 ==> r == Err(MissingColumn("ID"))) &&
      (multiset(names)["ID"] > 1 ==> r == Err(NotUnique("ID"))) &&
      (r.Ok? <==> multiset(names)["ID"] == 1)
    ensures var names := Relabel(t.columns, Mapping(m));
      r.Ok? ==> var j := Find(names, "ID");
        j < |names| && r.value.columns == Without(names, j) && "ID" !in r.value.columns &&
        WellFormed(r.value) && |r.value.rows| == |t.rows| &&
        forall i :: 0 <= i < |t.rows| ==>
          r.value.rows[i].key == t.rows[i].cells[j] && r.value.rows[i].cells == Without(t.rows[i].cells, j)
  {
    var names := Relabel(t.columns, Mapping(m));
    var count := multiset(names)["ID"];
    if count == 0 then Err(MissingColumn("ID"))
    else if count > 1 then Err(NotUnique("ID"))
    else
      var j := Find(names, "ID");
      OnlyOnce(names, "ID", j);
      Ok(Table(Without(names, j),
               seq(|t.rows|, i requires 0 <= i < |t.rows| => Row(t.rows[i].cells[j], Without(t.rows[i].cells, j)))))
  }

  /** A label occurring once is absent once its occurrence is removed. */
  lemma OnlyOnce(names: seq<string>, x: string, j: nat)
    requires j < |names| && names[j] == x && multiset(names)[x] == 1
    ensures x !in Without(names, j)
  {
    assert names == names[..j] + [x] + names[j + 1..];
    assert multiset(names) == multiset(names[..j]) + multiset{x} + multiset(names[j + 1..]);
    assert names[..j] + names[j + 1..] == Without(names, j);
    assert multiset(Without(names, j)) == multiset(names[..j]) + multiset(names[j + 1..]);
  }

  /** After renaming, every remaining column keeps its cells under its new label. */
  lemma RenameKeepsCells(t: Table, m: map<string, string>, i: nat, k: nat)
    requires WellFormed(t) && RenameColumns(t, m).Ok? && i < |t.rows| && k < |t.columns|
    requires Relabel(t.columns, Mapping(m))[k] != "ID"
    ensures var u := RenameColumns(t, m).value;
      var p := if k < Find(Relabel(t.columns, Mapping(m)), "ID") then k else k - 1;
      p < |u.columns| && u.columns[p] == Relabel(t.columns, Mapping(m))[k] && u.rows[i].cells[p] == t.rows[i].cells[k]
  {
    var names := Relabel(t.columns, Mapping(m));
    var j := Find(names, "ID");
    var u := RenameColumns(t, m).value;
    assert j < |names| && names[j] == "ID";
    assert u.columns == Without(names, j) && u.rows[i].cells == Without(t.rows[i].cells, j);
    if k < j {
      assert Without(names, j)[k] == names[k];
    } else {
      assert k > j;
      assert Without(names, j)[k - 1] == names[k];
      assert Without(t.rows[i].cells, j)[k - 1] == t.rows[i].cells[k];
    }
  }

  /** The default projection followed by the default renaming always succeeds and indexes
      the rows by their CIF data block name. */
  lemma DefaultPipelineIndexesById(t: Table)
    requires WellFormed(t) && KeepColumns(t, []).Ok?
    ensures var u := KeepColumns(t, []).value;
      RenameColumns(u, map[]).Ok? &&
      forall i :: 0 <= i < |t.rows| ==> RenameColumns(u, map[]).value.rows[i].key == CellAt(t, i, "data_")
  {
    var u := KeepColumns(t, []).value;
    DefaultNames();
    assert u.columns == DEFAULT_COLUMNS;
    assert Mapping(map[]) == DEFAULT_RENAMES;
    forall i | 0 <= i < |t.rows| ensures RenameColumns(u, map[]).value.rows[i].key == CellAt(t, i, "data_") {
      assert u.rows[i].cells[0] == CellAt(t, i, DEFAULT_COLUMNS[0]);
    }
  }

  /** The default renaming of the default columns has `ID` exactly once, in front. */
  lemma DefaultNames()
    ensures var names := Relabel(DEFAULT_COLUMNS, DEFAULT_RENAMES);
      Find(names, "ID") == 0 && multiset(names)["ID"] == 1
  {
    var names := Relabel(DEFAULT_COLUMNS, DEFAULT_RENAMES);
    RenamedHead();
    RenamedTail();
    assert names == [names[0]] + names[1..];
    assert multiset(names) == multiset([names[0]]) + multiset(names[1..]);
  }

  lemma RenamedHead()
    ensures Relabel(DEFAULT_COLUMNS, DEFAULT_RENAMES)[0] == "ID"
  {
    assert DEFAULT_COLUMNS[0] == "data_";
  }

  /** No default column after the first is renamed to `ID`. */
  lemma RenamedTail()
    ensures "ID" !in Relabel(DEFAULT_COLUMNS, DEFAULT_RENAMES)[1..]
  {
    var names := Relabel(DEFAULT_COLUMNS, DEFAULT_RENAMES);
    OnlyDataRenamedToId();
    LaterColumnsNotData();
    LaterColumnsNotId();
    forall k | 1 <= k < |names| ensures names[k] != "ID" {
      var c := DEFAULT_COLUMNS[k];
      assert c == DEFAULT_COLUMNS[1..][k - 1];
      assert c != "data_" && c != "ID";
    }
  }

  lemma LaterColumnsNotData()
    ensures "data_" !in DEFAULT_COLUMNS[1..]
  {
  }

  lemma LaterColumnsNotId()
    ensures "ID" !in DEFAULT_COLUMNS[1..]
  {
  }

  /** Among the default renames only `data_` becomes `ID`. */
  lemma OnlyDataRenamedToId()
    ensures forall c :: c in DEFAULT_RENAMES && DEFAULT_RENAMES[c] == "ID" ==> c == "data_"
  {
  }

  // ---------------------------------------------------------------- remove_characters

  /** The columns whose cells are not joined into strings. */
  const UNTOUCHED: set<string> := {"DATABASE", "PRESSURE", "@module", "@class", "charge", "lattice", "sites"}

  /** `Series.str.join(', ')` on one cell: a list is joined, a string is iterated character by
      character, anything else becomes missing. */
  function JoinCell(c: Cell): (r: Cell)
    ensures r.Missing? || r.Str?
    ensures c.List? ==> r == Str(Join(c.items, ", "))
    ensures c.Str? ==> r == Str(Join(Chars(c.s), ", "))
    ensures !c.List? && !c.Str? ==> r == Missing
  {
    match c
    case List(items) => Str(Join(items, ", "))
    case Str(s) => Str(Join(Chars(s), ", "))
    case _ => Missing
  }

  /** The ordered (element, count) pairs the formula parser delivers. */
  type Formula = seq<(string, string)>

  /** The formula parser: the pairs of a formula it accepts, None for one it rejects. */
  type Parser = string -> Option<Formula>

  /** Concatenation of every element followed by its count. */
  function Render(f: Formula): string
  {
    if f == [] then "" else f[0].0 + f[0].1 + Render(f[1..])
  }

  /** The string handed to the formula parser: blanks and tildes removed. */
  function FormulaInput(s: string): (r: string)
    ensures ' ' !in r && '~' !in r
    ensures forall c :: c != ' ' && c != '~' ==> multiset(r)[c] == multiset(s)[c]
    ensures SubseqOf(r, s)
  {
    RemoveChars(s, {' ', '~'})
  }

  /** A space-group symbol without blanks, tildes and parentheses, origin choice 2 written ` O2`. */
  function SpacegroupText(s: string): string
  {
    ReplaceAll(RemoveChars(s, {' ', '~', '(', ')'}), "originchoice2", " O2")
  }

  /** What the body of the column loop does to one cell of column `name`. */
  function CellStep(name: string, c: Cell, parse: Parser): (r: Result<Cell>)
    ensures var joined := if name in UNTOUCHED then c else JoinCell(c);
      r.Err? <==> name == "FORMULA" && (!joined.Str? || parse(FormulaInput(joined.s)).None?)
    ensures var joined := if name in UNTOUCHED then c else JoinCell(c);
      r.Err? ==> r.error == Unparsable(name)
  {
    var joined := if name in UNTOUCHED then c else JoinCell(c);
    if name == "FORMULA" then FormulaStep(joined, parse) else Ok(OtherStep(name, joined))
  }

  /** The FORMULA rewrite of a joined cell: cleaned, parsed and rendered. The parser raises on
      a formula it rejects and on a cell that is not a string (the join left it missing). */
  function FormulaStep(joined: Cell, parse: Parser): (r: Result<Cell>)
    ensures r.Err? <==> !joined.Str? || parse(FormulaInput(joined.s)).None?
    ensures r.Err? ==> r.error == Unparsable("FORMULA")
  {
    match joined
    case Str(s) =>
      (match parse(FormulaInput(s))
       case Some(f) => Ok(Str(Render(f)))
       case None => Err(Unparsable("FORMULA")))
    case _ => Err(Unparsable("FORMULA"))
  }

  /** The rewrite of a joined cell of any column other than FORMULA. */
  function OtherStep(name: string, joined: Cell): Cell
  {
    if name == "SPACEGROUP_SYM" then
      match joined
      case Str(s) => Str(SpacegroupText(s))
      case _ => joined
    else if name == "ELEMENT_COUNT" then
      match joined
      case Str(s) => Num((Occurrences(s, ',') + 1) as real)
      case _ => Missing
    else joined
  }

  /** One pass of the loop: column `k` of every row rewritten; raises if any cell does. */
  function ColumnStep(rows: seq<Row>, k: nat, name: string, parse: Parser): (r: Result<seq<Row>>)
    requires forall i :: 0 <= i < |rows| ==> k < |rows[i].cells|
    ensures r.Ok? <==> forall i :: 0 <= i < |rows| ==> CellStep(name, rows[i].cells[k], parse).Ok?
    ensures r.Err? ==> r.error == Unparsable(name)
    ensures r.Ok? ==> |r.value| == |rows| && forall i :: 0 <= i < |rows| ==>
      (r.value[i].key == rows[i].key && |r.value[i].cells| == |rows[i].cells| &&
       r.value[i].cells[k] == CellStep(name, rows[i].cells[k], parse).value &&
       forall c :: 0 <= c < |rows[i].cells| && c != k ==> r.value[i].cells[c] == rows[i].cells[c])
  {
    if forall i :: 0 <= i < |rows| ==> CellStep(name, rows[i].cells[k], parse).Ok? then
      Ok(seq(|rows|, i requires 0 <= i < |rows| => SetCell(rows[i], k, CellStep(name, rows[i].cells[k], parse).value)))
    else
      Err(Unparsable(name))
  }

  /** The rows after the loop has visited the first `k` columns. */
  function CoerceColumns(t: Table, k: nat, parse: Parser): (r: Result<seq<Row>>)
    requires WellFormed(t) && k <= |t.columns|
    ensures r.Ok? ==> |r.value| == |t.rows| && forall i :: 0 <= i < |r.value| ==> |r.value[i].cells| == |t.columns|
  {
    if k == 0 then Ok(t.rows)
    else
      match CoerceColumns(t, k - 1, parse)
      case Err(e) => Err(e)
      case Ok(rows) => ColumnStep(rows, k - 1, t.columns[k - 1], parse)
  }

  /** Every cell of the first `k` columns can be rewritten. */
  predicate StepsOk(t: Table, k: nat, parse: Parser)
    requires WellFormed(t) && k <= |t.columns|
  {
    forall i, c :: 0 <= i < |t.rows| && 0 <= c < k ==> CellStep(t.columns[c], t.rows[i].cells[c], parse).Ok?
  }

  /** `row` is row `i` of `t` with the first `k` cells rewritten and the others unchanged. */
  predicate CoercedRow(t: Table, k: nat, parse: Parser, i: nat, row: Row)
    requires WellFormed(t) && k <= |t.columns| && i < |t.rows|
  {
    row.key == t.rows[i].key && |row.cells| == |t.columns| &&
    (forall c :: 0 <= c < k ==>
      CellStep(t.columns[c], t.rows[i].cells[c], parse).Ok? &&
      row.cells[c] == CellStep(t.columns[c], t.rows[i].cells[c], parse).value) &&
    (forall c :: k <= c < |t.columns| ==> row.cells[c] == t.rows[i].cells[c])
  }

  /** Visiting the columns one by one is rewriting every cell at once: the loop succeeds
      exactly when every visited cell can be rewritten, and then each visited cell is the
      rewrite of the input cell, each other cell and every index label is unchanged. */
  lemma {:induction false} CoerceColumnsCells(t: Table, k: nat, parse: Parser)
    requires WellFormed(t) && k <= |t.columns|
    ensures CoerceColumns(t, k, parse).Ok? <==> StepsOk(t, k, parse)
    ensures CoerceColumns(t, k, parse).Ok? ==>
      forall i :: 0 <= i < |t.rows| ==> CoercedRow(t, k, parse, i, CoerceColumns(t, k, parse).value[i])
  {
    if k == 0 {
      forall i | 0 <= i < |t.rows| ensures CoercedRow(t, 0, parse, i, t.rows[i]) { }
    } else {
      CoerceColumnsCells(t, k - 1, parse);
      var prev := CoerceColumns(t, k - 1, parse);
      if prev.Ok? {
        ColumnStepCells(t, k, parse, prev.value);
      } else {
        var i, c :| 0 <= i < |t.rows| && 0 <= c < k - 1 && !CellStep(t.columns[c], t.rows[i].cells[c], parse).Ok?;
        assert 0 <= c < k;
      }
    }
  }

  /** One more pass of the loop over rows coerced in their first `k - 1` columns. */
  lemma ColumnStepCells(t: Table, k: nat, parse: Parser, rows: seq<Row>)
    requires WellFormed(t) && 0 < k <= |t.columns| && |rows| == |t.rows|
    requires StepsOk(t, k - 1, parse)
    requires forall i :: 0 <= i < |t.rows| ==> CoercedRow(t, k - 1, parse, i, rows[i])
    ensures forall i :: 0 <= i < |rows| ==> k - 1 < |rows[i].cells|
    ensures var step := ColumnStep(rows, k - 1, t.columns[k - 1], parse);
      (step.Ok? <==> StepsOk(t, k, parse)) &&
      (step.Ok? ==> forall i :: 0 <= i < |t.rows| ==> CoercedRow(t, k, parse, i, step.value[i]))
  {
    var name := t.columns[k - 1];
    assert forall i :: 0 <= i < |t.rows| ==> rows[i].cells[k - 1] == t.rows[i].cells[k - 1];
    var step := ColumnStep(rows, k - 1, name, parse);
    if step.Ok? {
      forall i | 0 <= i < |t.rows|
        ensures CoercedRow(t, k, parse, i, step.value[i])
      {
        assert CoercedRow(t, k - 1, parse, i, rows[i]);
      }
      assert StepsOk(t, k, parse) by {
        forall i, c | 0 <= i < |t.rows| && 0 <= c < k
          ensures CellStep(t.columns[c], t.rows[i].cells[c], parse).Ok?
        {
          if c < k - 1 {
            assert CoercedRow(t, k - 1, parse, i, rows[i]);
          }
        }
      }
    } else {
      var i :| 0 <= i < |rows| && !CellStep(name, rows[i].cells[k - 1], parse).Ok?;
      assert !CellStep(t.columns[k - 1], t.rows[i].cells[k - 1], parse).Ok?;
    }
  }

  /** The columns whose values are folded into REFERENCE and then dropped. */
  const JOURNAL: set<string> := {"_journal_volume", "_journal_page_first", "_journal_page_last"}

  /** `Series.astype(str)` on a cell that the loop left a string or missing. */
  function AsText(c: Cell): string
  {
    match c
    case Str(s) => s
    case _ => "nan"
  }

  /** The citation text `(year) volume, first-last`. */
  function Citation(year: Cell, volume: Cell, first: Cell, last: Cell): string
  {
    "(" + AsText(year) + ") " + AsText(volume) + ", " + AsText(first) + "-" + AsText(last)
  }

  /** Positions of the columns that survive the final `drop`, in order. */
  function KeptPositions(columns: seq<string>): (idx: seq<nat>)
    ensures forall p :: 0 <= p < |idx| ==> idx[p] < |columns| && columns[idx[p]] !in JOURNAL
    ensures forall k :: 0 <= k < |columns| && columns[k] !in JOURNAL ==> k in idx
    ensures Increasing(idx)
  {
    var keep: nat -> bool := (k: nat) => k < |columns| && columns[k] !in JOURNAL;
    var idx := Filter<nat>(Range(|columns|), keep);
    forall k | 0 <= k < |columns| && columns[k] !in JOURNAL
      ensures k in idx
    {
      assert Range(|columns|)[k] == k;
    }
    forall p | 0 <= p < |idx|
      ensures idx[p] < |columns| && columns[idx[p]] !in JOURNAL
    {
      assert idx[p] in idx;
    }
    RangeIncreasing(|columns|);
    FilterIncreasing(Range(|columns|), keep);
    idx
  }

  /** Dropping the journal columns removes exactly their labels and keeps, under every other
      label, the cells of its first column. */
  lemma DropJournal(w: Table, i: nat, x: string)
    requires WellFormed(w) && i < |w.rows| && x in w.columns && x !in JOURNAL
    ensures var u := Select(w, KeptPositions(w.columns));
      x in u.columns && CellAt(u, i, x) == CellAt(w, i, x) &&
      forall name :: name in JOURNAL ==> name !in u.columns
  {
    var idx := KeptPositions(w.columns);
    var u := Select(w, idx);
    var j := Find(w.columns, x);
    assert j in idx;
    var p :| 0 <= p < |idx| && idx[p] == j;
    assert u.columns[p] == x;
    forall q | 0 <= q < p ensures u.columns[q] != x {
      assert idx[q] < idx[p];
    }
    FindUnique(u.columns, x, p);
    forall name | name in JOURNAL ensures name !in u.columns {
      forall q | 0 <= q < |u.columns| ensures u.columns[q] != name {
        assert u.columns[q] == w.columns[idx[q]];
      }
    }
  }

  /** Every column but REFERENCE and the journal columns, as left by the loop. */
  function ReferenceLabels(): seq<string>
  {
    ["REFERENCE", "_journal_volume", "_journal_page_first", "_journal_page_last"]
  }

  /** The loop's table with each row's REFERENCE replaced by its citation. */
  function WithCitation(t: Table): (w: Table)
    requires WellFormed(t) && forall name :: name in ReferenceLabels() ==> name in t.columns
    ensures WellFormed(w) && w.columns == t.columns && |w.rows| == |t.rows|
    ensures forall i :: 0 <= i < |t.rows| ==> CellAt(w, i, "REFERENCE") == Str(RowCitation(t, i))
    ensures forall i, k :: 0 <= i < |t.rows| && 0 <= k < |t.columns| && t.columns[k] != "REFERENCE" ==>
      w.rows[i].cells[k] == t.rows[i].cells[k]
  {
    var j := Find(t.columns, "REFERENCE");
    Table(t.columns, seq(|t.rows|, i requires 0 <= i < |t.rows| => SetCell(t.rows[i], j, Str(RowCitation(t, i)))))
  }

  /** The citation of row `i`, from its REFERENCE and journal cells. */
  function RowCitation(t: Table, i: nat): string
    requires WellFormed(t) && i < |t.rows| && forall name :: name in ReferenceLabels() ==> name in t.columns
  {
    Citation(CellAt(t, i, "REFERENCE"), CellAt(t, i, "_journal_volume"),
             CellAt(t, i, "_journal_page_first"), CellAt(t, i, "_journal_page_last"))
  }

  /** The assignment of REFERENCE and the drop of the three journal columns, after the loop.
      Reading a column the table lacks raises, REFERENCE first, then volume, first and last page. */
  function BuildReference(t: Table): (r: Result<Table>)
    requires WellFormed(t)
    ensures r.Err? <==> exists name :: name in ReferenceLabels() && name !in t.columns
    ensures "REFERENCE" !in t.columns ==> r == Err(MissingColumn("REFERENCE"))
    ensures r.Ok? ==> WellFormed(r.value) && |r.value.rows| == |t.rows|
  {
    var names := ReferenceLabels();
    var a := FirstAbsent(names, t.columns);
    if a < |names| then Err(MissingColumn(names[a]))
    else Ok(Select(WithCitation(t), KeptPositions(t.columns)))
  }

  /** The whole of remove_characters, column loop first. */
  function RemovedCharacters(t: Table, parse: Parser): Result<Table>
    requires WellFormed(t)
  {
    match CoerceColumns(t, |t.columns|, parse)
    case Err(e) => Err(e)
    case Ok(rows) => BuildReference(Table(t.columns, rows))
  }

  /** Once a pass of the loop raises, the loop raises the same exception. */
  lemma {:induction false} CoerceErrorStays(t: Table, k: nat, m: nat, parse: Parser)
    requires WellFormed(t) && k <= m <= |t.columns| && CoerceColumns(t, k, parse).Err?
    ensures CoerceColumns(t, m, parse) == CoerceColumns(t, k, parse)
    decreases m - k
  {
    if k < m {
      CoerceErrorStays(t, k, m - 1, parse);
    }
  }

  /** One more pass of the loop rewrites the next column of the rows so far. */
  lemma CoerceNext(t: Table, k: nat, parse: Parser, rows: seq<Row>)
    requires WellFormed(t) && k < |t.columns| && CoerceColumns(t, k, parse) == Ok(rows)
    ensures forall i :: 0 <= i < |rows| ==> k < |rows[i].cells|
    ensures CoerceColumns(t, k + 1, parse) == ColumnStep(rows, k, t.columns[k], parse)
  {
  }

  /** A pass of the loop either raises what remove_characters raises or leaves the rows of
      one more column. */
  lemma PassResult(t: Table, k: nat, parse: Parser, rows: seq<Row>)
    requires WellFormed(t) && k < |t.columns| && CoerceColumns(t, k, parse) == Ok(rows)
    ensures forall i :: 0 <= i < |rows| ==> k < |rows[i].cells|
    ensures var step := ColumnStep(rows, k, t.columns[k], parse);
      (step.Err? ==> RemovedCharacters(t, parse) == Err(step.error)) &&
      (step.Ok? ==> CoerceColumns(t, k + 1, parse) == Ok(step.value))
  {
    CoerceNext(t, k, parse, rows);
    if ColumnStep(rows, k, t.columns[k], parse).Err? {
      CoerceErrorStays(t, k + 1, |t.columns|, parse);
      RemovedAfterLoop(t, parse);
    }
  }

  /** The column loop of remove_characters, then the REFERENCE assignment and the drop. */
  method RemoveCharacters(t: Table, parse: Parser) returns (r: Result<Table>)
    requires WellFormed(t)
    ensures r == RemovedCharacters(t, parse)
  {
    var rows := t.rows;
    var k := 0;
    while k < |t.columns|
      invariant k <= |t.columns|
      invariant CoerceColumns(t, k, parse) == Ok(rows)
    {
      PassResult(t, k, parse, rows);
      var step := ColumnStep(rows, k, t.columns[k], parse);
      if step.Err? {
        return Err(step.error);
      }
      rows := step.value;
      k := k + 1;
    }
    LoopDone(t, parse, rows);
    r := BuildReference(Table(t.columns, rows));
  }

  /** After the last pass, remove_characters builds the citation from the rows the loop left. */
  lemma LoopDone(t: Table, parse: Parser, rows: seq<Row>)
    requires WellFormed(t) && CoerceColumns(t, |t.columns|, parse) == Ok(rows)
    ensures WellFormed(Table(t.columns, rows)) && RemovedCharacters(t, parse) == BuildReference(Table(t.columns, rows))
  {
  }

  /** remove_characters raises what the loop raises, and otherwise builds the citation from
      the rows the loop leaves. */
  lemma RemovedAfterLoop(t: Table, parse: Parser)
    requires WellFormed(t)
    ensures var c := CoerceColumns(t, |t.columns|, parse);
      (c.Err? ==> RemovedCharacters(t, parse) == Err(c.error)) &&
      (c.Ok? ==> WellFormed(Table(t.columns, c.value)) && RemovedCharacters(t, parse) == BuildReference(Table(t.columns, c.value)))
  {
  }

  /** After remove_characters the journal columns are gone and each row's REFERENCE is the
      citation built from the row's joined REFERENCE and journal cells. */
  lemma RemovedCharactersReference(t: Table, parse: Parser, i: nat)
    requires WellFormed(t) && RemovedCharacters(t, parse).Ok? && i < |t.rows|
    ensures var u := RemovedCharacters(t, parse).value;
      (forall name :: name in JOURNAL ==> name !in u.columns) &&
      "REFERENCE" in t.columns && "REFERENCE" in u.columns &&
      CellAt(u, i, "REFERENCE") == Str(Citation(JoinCell(CellAt(t, i, "REFERENCE")), JoinCell(CellAt(t, i, "_journal_volume")),
                                                JoinCell(CellAt(t, i, "_journal_page_first")), JoinCell(CellAt(t, i, "_journal_page_last"))))
  {
    var c := LoopResult(t, parse);
    assert RemovedCharacters(t, parse) == BuildReference(c);
    assert forall name :: name in ReferenceLabels() ==> name in c.columns;
    var w := WithCitation(c);
    assert RemovedCharacters(t, parse).value == Select(w, KeptPositions(c.columns));
    DropJournal(w, i, "REFERENCE");
    LoopJoins(t, parse, i, "REFERENCE");
    LoopJoins(t, parse, i, "_journal_volume");
    LoopJoins(t, parse, i, "_journal_page_first");
    LoopJoins(t, parse, i, "_journal_page_last");
    assert CellAt(w, i, "REFERENCE") == Str(Citation(CellAt(c, i, "REFERENCE"), CellAt(c, i, "_journal_volume"),
                                                     CellAt(c, i, "_journal_page_first"), CellAt(c, i, "_journal_page_last")));
  }

  /** After remove_characters every other column still holds, under its label, the rewrite
      of the input cell. */
  lemma RemovedCharactersCells(t: Table, parse: Parser, i: nat, x: string)
    requires WellFormed(t) && RemovedCharacters(t, parse).Ok? && i < |t.rows|
    requires x in t.columns && x !in JOURNAL && x != "REFERENCE"
    ensures var u := RemovedCharacters(t, parse).value;
      x in u.columns && CellStep(x, CellAt(t, i, x), parse).Ok? &&
      CellAt(u, i, x) == CellStep(x, CellAt(t, i, x), parse).value
  {
    var c := LoopResult(t, parse);
    assert RemovedCharacters(t, parse) == BuildReference(c);
    assert forall name :: name in ReferenceLabels() ==> name in c.columns;
    var w := WithCitation(c);
    assert RemovedCharacters(t, parse).value == Select(w, KeptPositions(c.columns));
    DropJournal(w, i, x);
    LoopCell(t, parse, i, x);
  }

  /** The table the column loop leaves, when it succeeds. */
  function LoopResult(t: Table, parse: Parser): (c: Table)
    requires WellFormed(t) && CoerceColumns(t, |t.columns|, parse).Ok?
    ensures WellFormed(c) && c.columns == t.columns
  {
    Table(t.columns, CoerceColumns(t, |t.columns|, parse).value)
  }

  /** The loop only joins the REFERENCE and journal cells. */
  lemma LoopJoins(t: Table, parse: Parser, i: nat, x: string)
    requires WellFormed(t) && CoerceColumns(t, |t.columns|, parse).Ok? && i < |t.rows| && x in t.columns
    requires x in ReferenceLabels()
    ensures CellAt(LoopResult(t, parse), i, x) == JoinCell(CellAt(t, i, x))
  {
    LoopCell(t, parse, i, x);
    ReferenceStep(x, CellAt(t, i, x), parse);
  }

  /** The step on a REFERENCE or journal cell is the join alone. */
  lemma ReferenceStep(name: string, c: Cell, parse: Parser)
    requires name in ReferenceLabels()
    ensures CellStep(name, c, parse) == Ok(JoinCell(c))
  {
    assert name !in UNTOUCHED && name != "FORMULA" && name != "SPACEGROUP_SYM" && name != "ELEMENT_COUNT";
  }

  lemma LoopCell(t: Table, parse: Parser, i: nat, x: string)
    requires WellFormed(t) && CoerceColumns(t, |t.columns|, parse).Ok? && i < |t.rows| && x in t.columns
    ensures CellStep(x, CellAt(t, i, x), parse).Ok?
    ensures CellAt(LoopResult(t, parse), i, x) == CellStep(x, CellAt(t, i, x), parse).value
  {
    CoerceColumnsCells(t, |t.columns|, parse);
    assert CoercedRow(t, |t.columns|, parse, i, CoerceColumns(t, |t.columns|, parse).value[i]);
  }

  // ---------------------------------------------------------------- what the rewrites guarantee

  /** The rewritten space-group symbol has no tilde, no parenthesis, no `originchoice2`,
      and every blank in it begins an inserted ` O2`. */
  lemma SpacegroupClean(s: string)
    ensures var r := SpacegroupText(s);
      '~' !in r && '(' !in r && ')' !in r && !Contains(r, "originchoice2") && MarksStart(r, " O2")
  {
    var stripped := RemoveChars(s, {' ', '~', '(', ')'});
    ReplaceAllKeepsOut(stripped, "originchoice2", " O2", '~');
    ReplaceAllKeepsOut(stripped, "originchoice2", " O2", '(');
    ReplaceAllKeepsOut(stripped, "originchoice2", " O2", ')');
    ReplaceAllRemovesPattern(stripped, "originchoice2", " O2");
    ReplaceAllMarks(stripped, "originchoice2", " O2");
  }

  /** ELEMENT_COUNT of a list of k >= 1 comma-free symbols is k. */
  lemma ElementCountOfList(items: seq<string>, parse: Parser)
    requires items != [] && forall k :: 0 <= k < |items| ==> ',' !in items[k]
    ensures CellStep("ELEMENT_COUNT", List(items), parse) == Ok(Num(|items| as real))
  {
    JoinCommas(items);
  }

  /** A plain string in ELEMENT_COUNT is joined character by character, so a comma-free
      symbol string of length k counts as k elements. */
  lemma ElementCountOfString(s: string, parse: Parser)
    requires s != [] && ',' !in s
    ensures CellStep("ELEMENT_COUNT", Str(s), parse) == Ok(Num(|s| as real))
  {
    JoinCommas(Chars(s));
  }

  /** A numeric or missing ELEMENT_COUNT becomes missing; an empty list counts as one. */
  lemma ElementCountEdges(v: real, parse: Parser)
    ensures CellStep("ELEMENT_COUNT", Num(v), parse) == Ok(Missing)
    ensures CellStep("ELEMENT_COUNT", Missing, parse) == Ok(Missing)
    ensures CellStep("ELEMENT_COUNT", List([]), parse) == Ok(Num(1.0))
  {
  }

  /** A FORMULA is parsed from its joined text with blanks and tildes removed; a formula the
      parser rejects and a missing or numeric FORMULA make the loop raise. */
  lemma FormulaCell(c: Cell, parse: Parser)
    ensures c.List? ==> var text := FormulaInput(Join(c.items, ", "));
      CellStep("FORMULA", c, parse) ==
        if parse(text).Some? then Ok(Str(Render(parse(text).value))) else Err(Unparsable("FORMULA"))
    ensures (c.Missing? || c.Num?) ==> CellStep("FORMULA", c, parse) == Err(Unparsable("FORMULA"))
  {
  }
}
