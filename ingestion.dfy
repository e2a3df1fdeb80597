/** Loading CIF records (functions.py, load_PCD_cif and load_ICSD_cif) without the file system:
    every matched file is given as the outcome of the two foreign parsers, the raw CIF
    dictionary and the structure dictionary, or as a failure of either. */
module Ingestion {
  import opened Seqs
  import opened Frames
  import Text

  datatype Database = PCD | ICSD

  /** The value written into the `database` column. */
  function Tag(db: Database): string
  {
    match db
    case PCD => "PCD"
    case ICSD => "ICSD"
  }

  /** An insertion-ordered dictionary: its keys in insertion order, and its entries. */
  datatype Dict = Dict(order: seq<string>, values: map<string, Cell>)

  predicate IsDict(d: Dict)
  {
    Distinct(d.order) && (set k | k in d.order) == d.values.Keys
  }

  /** What reading one file produced: both dictionaries, or an exception from a parser. */
  datatype ParseOutcome = Parsed(raw: Dict, structure: Dict) | Unparseable

  /** `d.update(e)`: keys of `d` keep their place, new keys of `e` follow in `e`'s order,
      and on a shared key the value of `e` wins. */
  function Update(d: Dict, e: Dict): (u: Dict)
    requires IsDict(d) && IsDict(e)
    ensures IsDict(u)
    ensures u.values.Keys == d.values.Keys + e.values.Keys
    ensures forall k :: k in e.values ==> u.values[k] == e.values[k]
    ensures forall k :: k in d.values && k !in e.values ==> u.values[k] == d.values[k]
    ensures |d.order| <= |u.order| && u.order[..|d.order|] == d.order
  {
    var added := Filter(e.order, k => k !in d.values);
    SubseqDistinct(added, e.order);
    DistinctAppend(d.order, added);
    assert (set k | k in d.order + added) == d.values.Keys + e.values.Keys by {
      forall k | k in e.values.Keys && k !in d.values.Keys
        ensures k in added
      {
        assert k in e.order;
      }
    }
    Dict(d.order + added, d.values + e.values)
  }

  /** The one-row table built from a merged record, with the `database` column in front;
      None when the record cannot be turned into a table: a failed parse, or a record that
      already has a `database` key, which makes the column insertion raise. */
  function Frame(db: Database, o: ParseOutcome): Option<Table>
  {
    match o
    case Unparseable => None
    case Parsed(raw, structure) =>
      if !IsDict(raw) || !IsDict(structure) then None
      else
        var u := Update(raw, structure);
        if "database" in u.values then None
        else Some(RecordFrame(db, u))
  }

  /** The transposed one-column table of record `u`, with the database tag inserted first. */
  function RecordFrame(db: Database, u: Dict): Table
  {
    Table(["database"] + u.order,
          [Row(Num(0.0), [Str(Tag(db))] + Map(u.order, k => if k in u.values then u.values[k] else Missing))])
  }

  /** The frames appended to the list, in file order. */
  function LoadedFrames(db: Database, files: seq<ParseOutcome>): (r: seq<Table>)
    ensures |r| <= |files|
  {
    if files == [] then []
    else
      var init := LoadedFrames(db, files[..|files| - 1]);
      match Frame(db, files[|files| - 1])
      case Some(t) => init + [t]
      case None => init
  }

  /** The failure counter `n`. */
  function Failures(db: Database, files: seq<ParseOutcome>): nat
  {
    if files == [] then 0
    else Failures(db, files[..|files| - 1]) + (if Frame(db, files[|files| - 1]).None? then 1 else 0)
  }

  /** `cols` followed by the labels of `more` it does not have yet. */
  function AddColumns(cols: seq<string>, more: seq<string>): (r: seq<string>)
    ensures forall c :: c in r <==> c in cols || c in more
    ensures |cols| <= |r| && r[..|cols|] == cols
  {
    cols + Filter(more, c => c !in cols)
  }

  /** The columns of a concatenation: every label, in order of first appearance. */
  function UnionColumns(frames: seq<Table>): (r: seq<string>)
    ensures forall c :: c in r ==> exists i :: 0 <= i < |frames| && c in frames[i].columns
    ensures forall i, c :: 0 <= i < |frames| && c in frames[i].columns ==> c in r
  {
    if frames == [] then []
    else AddColumns(UnionColumns(frames[..|frames| - 1]), frames[|frames| - 1].columns)
  }

  /** Row `r` of a table with columns `have`, laid out under `cols`; absent columns are missing. */
  function Align(r: Row, have: seq<string>, cols: seq<string>): (a: Row)
    ensures a.key == r.key && |a.cells| == |cols|
    ensures forall k :: 0 <= k < |cols| && cols[k] !in have ==> a.cells[k] == Missing
    ensures forall k :: 0 <= k < |cols| && cols[k] in have && |r.cells| == |have| ==>
      a.cells[k] == r.cells[Find(have, cols[k])]
  {
    Row(r.key, seq(|cols|, k requires 0 <= k < |cols| =>
      var j := Find(have, cols[k]); if j < |have| && j < |r.cells| then r.cells[j] else Missing))
  }

  function ConcatRows(frames: seq<Table>, cols: seq<string>): (rows: seq<Row>)
    ensures forall i :: 0 <= i < |rows| ==> |rows[i].cells| == |cols|
  {
    if frames == [] then []
    else
      var last := frames[|frames| - 1];
      ConcatRows(frames[..|frames| - 1], cols) + Map(last.rows, r => Align(r, last.columns, cols))
  }

  /** `pd.concat(frames)`: the rows of all frames, one after the other, under the union of
      their columns; an empty list raises. */
  function Concat(frames: seq<Table>): (r: Result<Table>)
    ensures r.Err? <==> frames == []
    ensures r.Err? ==> r.error == NoObjectsToConcatenate
    ensures r.Ok? ==> WellFormed(r.value)
  {
    if frames == [] then Err(NoObjectsToConcatenate)
    else
      var cols := UnionColumns(frames);
      Ok(Table(cols, ConcatRows(frames, cols)))
  }

  /** The identifier as rewritten by the loader of `db`: PCD prefixes `PCD_`; ICSD deletes
      every `-ICSD`, scanning left to right, and prefixes `ICSD_`. */
  function TagId(db: Database, id: string): (r: string)
  {
    match db
    case PCD => "PCD_" + id
    case ICSD => "ICSD_" + Text.ReplaceAll(id, "-ICSD", "")
  }

  /** The rewrite of the `data_` column; any cell that is not a string makes the prefixing raise. */
  function TagIds(db: Database, t: Table): (r: Result<Table>)
    requires WellFormed(t)
    ensures "data_" !in t.columns ==> r == Err(MissingColumn("data_"))
    ensures r.Ok? <==> "data_" in t.columns && AllStrings(t, Find(t.columns, "data_"))
    ensures r.Err? && "data_" in t.columns ==> r.error == NotAString("data_")
    ensures r.Ok? ==> r.value.columns == t.columns && |r.value.rows| == |t.rows| && WellFormed(r.value)
  {
    var j := Find(t.columns, "data_");
    if j == |t.columns| then Err(MissingColumn("data_"))
    else if AllStrings(t, j) then
      Ok(Table(t.columns, seq(|t.rows|, i requires 0 <= i < |t.rows| => SetCell(t.rows[i], j, Str(TagId(db, t.rows[i].cells[j].s))))))
    else Err(NotAString("data_"))
  }

  /** Every cell of column `j` is a string. */
  predicate AllStrings(t: Table, j: nat)
    requires WellFormed(t) && j < |t.columns|
  {
    forall i :: 0 <= i < |t.rows| ==> t.rows[i].cells[j].Str?
  }

  /** After tagging, each identifier is the rewritten original and every other cell and
      every index label is unchanged. */
  lemma TagIdsCells(db: Database, t: Table, i: nat)
    requires WellFormed(t) && TagIds(db, t).Ok? && i < |t.rows|
    ensures var u := TagIds(db, t).value;
      CellAt(t, i, "data_").Str? &&
      CellAt(u, i, "data_") == Str(TagId(db, CellAt(t, i, "data_").s)) &&
      u.rows[i].key == t.rows[i].key &&
      forall k :: 0 <= k < |t.columns| && t.columns[k] != "data_" ==> u.rows[i].cells[k] == t.rows[i].cells[k]
  {
  }

  /** What the loader returns and reports: the table, the number of files `x`, the number
      of failures `n` and the failure percentage it prints. */
  datatype Report = Report(table: Table, files: nat, failures: nat, failedPercent: nat)

  /** `int(n / x * 100)`, computed exactly. */
  function Percent(n: nat, x: nat): (p: nat)
    requires x > 0
    ensures n < x ==> p < 100
    ensures p * x <= n * 100 < (p + 1) * x
  {
    n * 100 / x
  }

  /** The loader of `db` on the given files. */
  function Load(db: Database, files: seq<ParseOutcome>): Result<Report>
  {
    var frames := LoadedFrames(db, files);
    match Concat(frames)
    case Err(e) => Err(e)
    case Ok(df) =>
      match TagIds(db, df)
      case Err(e) => Err(e)
      case Ok(t) => Ok(Report(t, |files|, Failures(db, files), Percent(Failures(db, files), |files|)))
  }

  /** The loader's loop: every file increments `x`; a file that yields a frame appends it,
      any other increments `n`. */
  method LoadCifs(db: Database, files: seq<ParseOutcome>) returns (r: Result<Report>)
    ensures r == Load(db, files)
  {
    var x, n := 0, 0;
    var cifData: seq<Table> := [];
    while x < |files|
      invariant x <= |files|
      invariant n + |cifData| == x
      invariant cifData == LoadedFrames(db, files[..x])
      invariant n == Failures(db, files[..x])
    {
      assert files[..x + 1][..x] == files[..x];
      var file := files[x];
      x := x + 1;
      match Frame(db, file)
      case Some(temp) =>
        cifData := cifData + [temp];
      case None =>
        n := n + 1;
    }
    assert files[..x] == files;
    var df := Concat(cifData);
    if df.Err? {
      return Err(df.error);
    }
    var tagged := TagIds(db, df.value);
    if tagged.Err? {
      return Err(tagged.error);
    }
    r := Ok(Report(tagged.value, x, n, Percent(n, x)));
  }

  /** Every file is either appended or counted as a failure: `n + len(cif_data) == x`. */
  lemma {:induction false} Accounting(db: Database, files: seq<ParseOutcome>)
    ensures |LoadedFrames(db, files)| + Failures(db, files) == |files|
  {
    if files != [] {
      Accounting(db, files[..|files| - 1]);
    }
  }

  /** The concatenation fails exactly when no file yielded a frame. */
  lemma {:induction false} NothingLoaded(db: Database, files: seq<ParseOutcome>)
    ensures Load(db, files) == Err(NoObjectsToConcatenate) <==>
      forall i :: 0 <= i < |files| ==> Frame(db, files[i]).None?
  {
    NoFramesIffAllFail(db, files);
    if LoadedFrames(db, files) != [] {
      var df := Concat(LoadedFrames(db, files));
      assert df.Ok?;
    }
  }

  lemma {:induction false} NoFramesIffAllFail(db: Database, files: seq<ParseOutcome>)
    ensures LoadedFrames(db, files) == [] <==> forall i :: 0 <= i < |files| ==> Frame(db, files[i]).None?
  {
    if files != [] {
      var init := files[..|files| - 1];
      NoFramesIffAllFail(db, init);
      assert forall i :: 0 <= i < |init| ==> init[i] == files[i];
      match Frame(db, files[|files| - 1])
      case Some(t) =>
        assert LoadedFrames(db, files) == LoadedFrames(db, init) + [t];
      case None =>
        assert LoadedFrames(db, files) == LoadedFrames(db, init);
    }
  }

  /** A concatenation of one-row frames has one row per frame, in frame order. */
  lemma {:induction false} ConcatSingleRows(frames: seq<Table>, cols: seq<string>)
    requires forall i :: 0 <= i < |frames| ==> |frames[i].rows| == 1
    ensures |ConcatRows(frames, cols)| == |frames|
    ensures forall i :: 0 <= i < |frames| ==>
      ConcatRows(frames, cols)[i] == Align(frames[i].rows[0], frames[i].columns, cols)
  {
    if frames != [] {
      var init := frames[..|frames| - 1];
      ConcatSingleRows(init, cols);
      assert forall i :: 0 <= i < |init| ==> init[i] == frames[i];
    }
  }

  /** Every frame has one row, whose first column is the database tag, and the frame's
      column labels do not repeat. */
  predicate TaggedFrame(db: Database, t: Table)
  {
    |t.rows| == 1 && t.columns != [] && t.columns[0] == "database" && Distinct(t.columns) &&
    |t.rows[0].cells| == |t.columns| && t.rows[0].cells[0] == Str(Tag(db))
  }

  lemma FrameTagged(db: Database, o: ParseOutcome)
    requires Frame(db, o).Some?
    ensures TaggedFrame(db, Frame(db, o).value)
  {
    var u := Update(o.raw, o.structure);
    assert "database" !in u.order;
    DistinctAppend(["database"], u.order);
  }

  /** A merged record carries every key of both dictionaries, the structure dictionary's value on
      a shared key, and the database tag in front. */
  lemma MergedRecord(db: Database, raw: Dict, structure: Dict, k: string)
    requires IsDict(raw) && IsDict(structure)
    requires Frame(db, Parsed(raw, structure)).Some?
    requires k in raw.values || k in structure.values
    ensures var t := Frame(db, Parsed(raw, structure)).value;
      WellFormed(t) && |t.rows| == 1 && "database" in t.columns && k in t.columns &&
      CellAt(t, 0, "database") == Str(Tag(db)) &&
      CellAt(t, 0, k) == if k in structure.values then structure.values[k] else raw.values[k]
  {
    var u := Update(raw, structure);
    FrameIsRecord(db, raw, structure);
    RecordFrameCell(db, u, k);
  }

  lemma FrameIsRecord(db: Database, raw: Dict, structure: Dict)
    requires IsDict(raw) && IsDict(structure)
    requires Frame(db, Parsed(raw, structure)).Some?
    ensures var u := Update(raw, structure);
      "database" !in u.values && Frame(db, Parsed(raw, structure)) == Some(RecordFrame(db, u))
  {
  }

  lemma RecordFrameCell(db: Database, u: Dict, k: string)
    requires IsDict(u) && "database" !in u.values && k in u.values
    ensures var t := RecordFrame(db, u);
      WellFormed(t) && k in t.columns && CellAt(t, 0, "database") == Str(Tag(db)) && CellAt(t, 0, k) == u.values[k]
  {
    var t := RecordFrame(db, u);
    assert k in u.order;
    var j := Find(u.order, k);
    FindAfter("database", u.order, k);
    var cells := Map(u.order, k => if k in u.values then u.values[k] else Missing);
    assert t.rows[0].cells == [Str(Tag(db))] + cells;
    assert t.rows[0].cells[j + 1] == cells[j] == u.values[k];
  }

  lemma FindAfter(x: string, s: seq<string>, k: string)
    requires k != x
    ensures Find([x] + s, k) == 1 + Find(s, k)
  {
    assert ([x] + s)[1..] == s;
  }

  lemma {:induction false} FramesTagged(db: Database, files: seq<ParseOutcome>)
    ensures forall i :: 0 <= i < |LoadedFrames(db, files)| ==> TaggedFrame(db, LoadedFrames(db, files)[i])
  {
    if files != [] {
      FramesTagged(db, files[..|files| - 1]);
      if Frame(db, files[|files| - 1]).Some? {
        FrameTagged(db, files[|files| - 1]);
      }
    }
  }

  lemma {:induction false} UnionStartsWithFirst(frames: seq<Table>)
    requires frames != []
    ensures |frames[0].columns| <= |UnionColumns(frames)|
    ensures UnionColumns(frames)[..|frames[0].columns|] == frames[0].columns
  {
    if |frames| == 1 {
      assert frames[..0] == [];
      FilterAll(frames[0].columns, c => c !in []);
    } else {
      var init := frames[..|frames| - 1];
      UnionStartsWithFirst(init);
      assert init[0] == frames[0];
      var u := UnionColumns(init);
      var n := |frames[0].columns|;
      assert UnionColumns(frames)[..|u|] == u;
      assert UnionColumns(frames)[..n] == u[..n];
    }
  }

  /** On success the accounting holds: one row per loaded file, every file counted once,
      and the printed percentage is `floor(100 n / x)`, strictly below 100. */
  lemma LoadReport(db: Database, files: seq<ParseOutcome>)
    requires Load(db, files).Ok?
    ensures var rep := Load(db, files).value;
      rep.files == |files| && rep.failures == Failures(db, files) &&
      |rep.table.rows| + rep.failures == |files| &&
      rep.failedPercent == rep.failures * 100 / rep.files && rep.failedPercent < 100
  {
    var frames := LoadedFrames(db, files);
    Accounting(db, files);
    FramesTagged(db, files);
    ConcatSingleRows(frames, UnionColumns(frames));
    var n := Failures(db, files);
    assert n < |files|;
    assert n * 100 < |files| * 100;
  }

  /** On success every row carries the database tag and its identifier is the rewritten one. */
  lemma LoadTags(db: Database, files: seq<ParseOutcome>)
    requires Load(db, files).Ok?
    ensures var t := Load(db, files).value.table;
      WellFormed(t) && "database" in t.columns && "data_" in t.columns &&
      (forall i :: 0 <= i < |t.rows| ==> CellAt(t, i, "database") == Str(Tag(db))) &&
      var df := Concat(LoadedFrames(db, files)).value;
      WellFormed(df) && |df.rows| == |t.rows| && "data_" in df.columns &&
      forall i :: 0 <= i < |t.rows| ==>
        CellAt(df, i, "data_").Str? && CellAt(t, i, "data_") == Str(TagId(db, CellAt(df, i, "data_").s))
  {
    var frames := LoadedFrames(db, files);
    var cols := UnionColumns(frames);
    FramesTagged(db, files);
    ConcatSingleRows(frames, cols);
    UnionStartsWithFirst(frames);
    assert cols[0] == frames[0].columns[0] == "database";
    var df := Concat(frames).value;
    var t := Load(db, files).value.table;
    assert Find(cols, "database") == 0;
    forall i | 0 <= i < |t.rows|
      ensures t.rows[i].cells[0] == Str(Tag(db))
    {
      assert TaggedFrame(db, frames[i]);
      assert Find(frames[i].columns, "database") == 0;
      assert df.rows[i].cells[0] == Str(Tag(db));
    }
    forall i | 0 <= i < |t.rows|
      ensures CellAt(df, i, "data_").Str? && CellAt(t, i, "data_") == Str(TagId(db, CellAt(df, i, "data_").s))
    {
      TagIdsCells(db, df, i);
    }
  }

  lemma PcdTagInjective(a: string, b: string)
    requires TagId(PCD, a) == TagId(PCD, b)
    ensures a == b
  {
    assert a == TagId(PCD, a)[4..];
  }

  /** A PCD identifier never collides with an ICSD one. */
  lemma TagsDisjoint(a: string, b: string)
    ensures TagId(PCD, a) != TagId(ICSD, b)
  {
    assert TagId(PCD, a)[0] == 'P' && TagId(ICSD, b)[0] == 'I';
  }

  /** An ICSD identifier without the marker is only prefixed, so stripping the prefix
      recovers it. */
  lemma IcsdTagWithoutMarker(id: string)
    requires !Text.Contains(id, "-ICSD")
    ensures TagId(ICSD, id) == "ICSD_" + id
    ensures TagId(ICSD, id)[5..] == id
  {
    Text.ReplaceAllAbsent(id, "-ICSD", "");
  }

  lemma Examples()
    ensures TagId(PCD, "1") == "PCD_1"
    ensures TagId(ICSD, "1-ICSD") == "ICSD_1"
  {
    assert "1-ICSD"[1..] == "-ICSD";
    assert "-ICSD"[5..] == [];
  }

  /** Two ICSD identifiers can end up equal: the rewrite is not injective. */
  lemma IcsdTagCollides()
    ensures TagId(ICSD, "1") == TagId(ICSD, "1-ICSD")
  {
    Examples();
  }

  /** The deletion is a single left-to-right pass: a marker formed by the deletion itself stays. */
  lemma IcsdSinglePass()
    ensures TagId(ICSD, "--ICSDICSD") == "ICSD_-ICSD"
  {
    var s := "--ICSDICSD";
    assert s[..5][1] != "-ICSD"[1];
    assert s[1..][..5] == "-ICSD";
    assert s[1..][5..] == "ICSD";
    assert "ICSD"[..|"ICSD"|] == "ICSD";
  }
}
