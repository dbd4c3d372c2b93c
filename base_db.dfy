/**
 * The unified database table: the sixteen parsed columns of a parsed
 * dataset plus MASS and SMILES, indexed by INDEX. Construction validates
 * the header; tables are built from a parsed dataset, concatenated (with
 * optional de-duplication on one column) and sub-set by label.
 */
module BaseDb {
  import opened Wrappers
  import Seqs
  import Dicts
  import opened Parsing

  /** A column of a unified database besides its index; other columns are not modelled. */
  datatype DbColumn = ParsedCol(f: Feature) | MassCol | SmilesCol

  function DbColumnName(c: DbColumn): string
  {
    match c
    case ParsedCol(f) => FeatureName(f)
    case MassCol => "MASS"
    case SmilesCol => "SMILES"
  }

  /** The sixteen parsed columns, in table order: the parsed features without STATUS and MESSAGE. */
  const ParsedColumns: seq<Feature> :=
    [OriginalNameCol, ParsedNameCol, LevelCol] + LevelColumns + FaColumns + [LcbCol]

  /** Every column a unified database must carry. */
  const DbColumns: seq<DbColumn> := [
    ParsedCol(OriginalNameCol), ParsedCol(ParsedNameCol), ParsedCol(LevelCol),
    ParsedCol(LevelColumn(CATEGORY)), ParsedCol(LevelColumn(CLASS)), ParsedCol(LevelColumn(SPECIES)),
    ParsedCol(LevelColumn(MOLECULAR_SPECIES)), ParsedCol(LevelColumn(SN_POSITION)),
    ParsedCol(LevelColumn(STRUCTURE_DEFINED)), ParsedCol(LevelColumn(FULL_STRUCTURE)),
    ParsedCol(LevelColumn(COMPLETE_STRUCTURE)),
    ParsedCol(FaCol(0)), ParsedCol(FaCol(1)), ParsedCol(FaCol(2)), ParsedCol(FaCol(3)),
    ParsedCol(LcbCol), MassCol, SmilesCol]

  /** Where a feature stands among the parsed columns; -1 for STATUS, MESSAGE and the non-features. */
  function ParsedPosition(f: Feature): int {
    match f
    case OriginalNameCol => 0
    case ParsedNameCol => 1
    case LevelCol => 2
    case LevelColumn(l) => if l == UNDEFINED then -1 else 2 + Rank(l)
    case FaCol(k) => if k < 4 then 11 + k else -1
    case LcbCol => 15
    case _ => -1
  }

  /** The parsed columns are sixteen distinct features. */
  lemma ParsedColumnsDistinct()
    ensures |ParsedColumns| == 16 && Seqs.NoDup(ParsedColumns)
    ensures forall i :: 0 <= i < 16 ==> ParsedPosition(ParsedColumns[i]) == i
  {
    forall i | 0 <= i < 16 ensures ParsedPosition(ParsedColumns[i]) == i {
    }
  }

  /** The first sixteen database columns are the parsed columns, in order; MASS and SMILES follow. */
  lemma DbColumnsStartParsed()
    ensures |DbColumns| == 18 && DbColumns[16] == MassCol && DbColumns[17] == SmilesCol
    ensures forall i :: 0 <= i < 16 ==> DbColumns[i] == ParsedCol(ParsedColumns[i])
  {
  }

  /** A feature has a place among the parsed columns iff it is a feature column other than STATUS and MESSAGE. */
  lemma ParsedPositionSpec(f: Feature)
    ensures ParsedPosition(f) >= 0 <==> IsFeature(f) && f != StatusCol && f != MessageCol
    ensures ParsedPosition(f) >= 0 ==> ParsedPosition(f) < 16 && ParsedColumns[ParsedPosition(f)] == f
  {
  }

  /** The parsed columns are exactly the feature columns other than STATUS and MESSAGE, and their database columns are the table's. */
  lemma ParsedColumnsSpec(f: Feature)
    ensures f in ParsedColumns <==> IsFeature(f) && f != StatusCol && f != MessageCol
    ensures ParsedCol(f) in DbColumns <==> f in ParsedColumns
  {
    ParsedPositionSpec(f);
    ParsedColumnsDistinct();
    DbColumnsStartParsed();
    if f in ParsedColumns {
      var i :| 0 <= i < 16 && ParsedColumns[i] == f;
      assert DbColumns[i] == ParsedCol(f);
    }
    if ParsedCol(f) in DbColumns {
      var i :| 0 <= i < |DbColumns| && DbColumns[i] == ParsedCol(f);
      assert i < 16;
      assert ParsedColumns[i] == f;
    }
  }

  /** A cell: text, a mass, or NaN. */
  datatype Cell = Text(s: string) | Mass(m: real) | NaN

  datatype DbRow = DbRow(id: string, cells: map<DbColumn, Cell>)

  datatype UnifiedDatabase = UnifiedDatabase(indexName: Option<string>, columns: set<DbColumn>, rows: seq<DbRow>)

  /** The row labels of a table, in row order. */
  function DbIds(rows: seq<DbRow>): (ids: seq<string>)
    ensures |ids| == |rows|
    ensures forall i :: 0 <= i < |rows| ==> ids[i] == rows[i].id
  {
    Seqs.Map(rows, (r: DbRow) => r.id)
  }

  /** The value of a column in a row; a column the row lacks reads as NaN. */
  function CellAt(r: DbRow, c: DbColumn): Cell
  {
    if c in r.cells then r.cells[c] else NaN
  }

  /** Every row carries exactly the table's columns. */
  predicate Rectangular(db: UnifiedDatabase) {
    forall r :: r in db.rows ==> r.cells.Keys == db.columns
  }

  /** The header check of the constructor. */
  predicate ValidHeader(indexName: Option<string>, columns: set<DbColumn>) {
    indexName == Some(IndexName) && forall c :: c in DbColumns ==> c in columns
  }

  /** The constructor: the index must be named INDEX and no required column may be missing. */
  function MakeUnifiedDatabase(indexName: Option<string>, columns: set<DbColumn>, rows: seq<DbRow>)
    : (r: Result<UnifiedDatabase>)
    ensures r.Ok? <==> ValidHeader(indexName, columns)
    ensures r.Ok? ==> r.value == UnifiedDatabase(indexName, columns, rows)
    ensures r.Err? ==> r.error == ValueError
  {
    if indexName != Some(IndexName) then Err(ValueError)
    else if exists c :: c in DbColumns && c !in columns then Err(ValueError)
    else Ok(UnifiedDatabase(indexName, columns, rows))
  }

  // ----- from a parsed dataset -----

  /** The labels of a series, as a set, for the symmetric-difference check. */
  function LabelSet<V>(s: Dicts.Dict<string, V>): set<string>
  {
    set k | k in Dicts.Keys(s)
  }

  function IdSet(rows: seq<Row>): set<string>
  {
    set id | id in Ids(rows)
  }

  function ParsedCell(r: Row, mass: Dicts.Dict<string, real>, smiles: Dicts.Dict<string, string>, c: DbColumn): Cell
  {
    match c
    case ParsedCol(f) => if Column(r, f).Some? then Text(Column(r, f).value) else NaN
    case MassCol => if Dicts.Get(mass, r.id).Some? then Mass(Dicts.Get(mass, r.id).value) else NaN
    case SmilesCol => if Dicts.Get(smiles, r.id).Some? then Text(Dicts.Get(smiles, r.id).value) else NaN
  }

  function UnifiedRow(r: Row, mass: Dicts.Dict<string, real>, smiles: Dicts.Dict<string, string>): DbRow
  {
    DbRow(r.id, map c | c in DbColumns :: ParsedCell(r, mass, smiles, c))
  }

  /** The rows of the unified table: each parsed row with its mass and SMILES. */
  function UnifiedRows(ds: ParsedDataset, mass: Dicts.Dict<string, real>, smiles: Dicts.Dict<string, string>): seq<DbRow>
  {
    Seqs.Map(ds.rows, (r: Row) => UnifiedRow(r, mass, smiles))
  }

  /** A pandas series: its values by label, its name and the name of its index. */
  datatype NamedSeries<V> = NamedSeries(values: Dicts.Dict<string, V>, name: Option<string>, indexName: Option<string>)

  /**
   * The index name of a column-wise `pd.concat`: kept when every part's
   * index carries the same name, dropped (None) otherwise.
   */
  function ConcatIndexName(names: seq<Option<string>>): (r: Option<string>)
    requires |names| > 0
    ensures r.Some? ==> forall n :: n in names ==> n == r
  {
    if forall n :: n in names ==> n == names[0] then names[0] else None
  }

  /** Three parts keep a name exactly when all three carry it. */
  lemma ConcatIndexNameOfThree(a: Option<string>, b: Option<string>, c: Option<string>)
    ensures ConcatIndexName([a, b, c]) == if a == b && b == c then a else None
  {
    var names := [a, b, c];
    if a != b {
      assert names[1] in names;
    } else if b != c {
      assert names[2] in names;
    }
  }

  /**
   * The parsed columns of `ds` side by side with the mass and SMILES
   * series, each series' values landing under its column whatever the
   * series is named. Both series must carry exactly the dataset's labels,
   * and the column-wise concat keeps the index name INDEX of the parsed
   * rows only when both series' indexes carry it too.
   */
  function FromParsedDs(ds: ParsedDataset, mass: NamedSeries<real>, smiles: NamedSeries<string>)
    : Result<UnifiedDatabase>
  {
    if LabelSet(mass.values) != IdSet(ds.rows) || LabelSet(smiles.values) != IdSet(ds.rows) then Err(ValueError)
    else MakeUnifiedDatabase(ConcatIndexName([Some(IndexName), mass.indexName, smiles.indexName]),
                             (set c | c in DbColumns), UnifiedRows(ds, mass.values, smiles.values))
  }

  /** A unified row carries exactly the required columns. */
  lemma UnifiedRowColumns(r: Row, mass: Dicts.Dict<string, real>, smiles: Dicts.Dict<string, string>)
    ensures UnifiedRow(r, mass, smiles).cells.Keys == set c | c in DbColumns
  {
  }

  /** Its parsed columns hold the parsed row's values, and its mass and SMILES those of its label. */
  lemma UnifiedRowCells(r: Row, mass: Dicts.Dict<string, real>, smiles: Dicts.Dict<string, string>, f: Feature)
    requires r.id in Dicts.Keys(mass) && r.id in Dicts.Keys(smiles)
    requires f in ParsedColumns
    ensures CellAt(UnifiedRow(r, mass, smiles), ParsedCol(f)) == Text(Column(r, f).value)
    ensures CellAt(UnifiedRow(r, mass, smiles), MassCol) == Mass(Dicts.Get(mass, r.id).value)
    ensures CellAt(UnifiedRow(r, mass, smiles), SmilesCol) == Text(Dicts.Get(smiles, r.id).value)
  {
    ParsedColumnsSpec(f);
  }

  /**
   * The table is built iff both series carry exactly the dataset's labels
   * on an index named INDEX, and ValueError is raised otherwise; it then
   * has one row per parsed row, in order, holding that row's parsed
   * columns, its mass and its SMILES.
   */
  lemma FromParsedDsSpec(ds: ParsedDataset, mass: NamedSeries<real>, smiles: NamedSeries<string>)
    ensures FromParsedDs(ds, mass, smiles).Ok? <==>
      && LabelSet(mass.values) == IdSet(ds.rows) && LabelSet(smiles.values) == IdSet(ds.rows)
      && mass.indexName == Some(IndexName) && smiles.indexName == Some(IndexName)
    ensures FromParsedDs(ds, mass, smiles).Err? ==> FromParsedDs(ds, mass, smiles).error == ValueError
    ensures FromParsedDs(ds, mass, smiles).Ok? ==>
      var db := FromParsedDs(ds, mass, smiles).value;
      ValidHeader(db.indexName, db.columns) && Rectangular(db)
      && DbIds(db.rows) == Ids(ds.rows)
      && forall i :: 0 <= i < |ds.rows| ==> db.rows[i] == UnifiedRow(ds.rows[i], mass.values, smiles.values)
  {
    ConcatIndexNameOfThree(Some(IndexName), mass.indexName, smiles.indexName);
    if FromParsedDs(ds, mass, smiles).Ok? {
      var db := FromParsedDs(ds, mass, smiles).value;
      forall r | r in db.rows ensures r.cells.Keys == db.columns {
        var i :| 0 <= i < |db.rows| && db.rows[i] == r;
        var p := ds.rows[i];
        assert Ids(ds.rows)[i] == p.id;
        assert p.id in IdSet(ds.rows);
        UnifiedRowColumns(p, mass.values, smiles.values);
      }
    }
  }

  // ----- from a parsed dataset, as written -----

  /** `pd.DataFrame(series, columns=[col])` keeps the series' values exactly when it is unnamed or named `col`. */
  predicate Lands<V>(s: NamedSeries<V>, col: string) {
    s.name.None? || s.name == Some(col)
  }

  /**
   * `pd.DataFrame(series, columns=[col])`: a series that lands gives its
   * values under `col` on its own index; pandas keys any other series by
   * its name, so the frame is empty, on an unnamed empty RangeIndex.
   */
  function AsColumn<V>(s: NamedSeries<V>, col: string): NamedSeries<V>
  {
    if Lands(s, col) then NamedSeries(s.values, Some(col), s.indexName) else NamedSeries([], Some(col), None)
  }

  /**
   * `from_parsed_ds` as written: the label check on the series, then each
   * series turned into its column by `AsColumn` before the column-wise
   * concat. The generic database passes columns of its own table: series
   * named after those columns, on an index named after the file's first
   * column.
   */
  function FromParsedDsAsWritten(ds: ParsedDataset, mass: NamedSeries<real>, smiles: NamedSeries<string>)
    : Result<UnifiedDatabase>
  {
    if LabelSet(mass.values) != IdSet(ds.rows) || LabelSet(smiles.values) != IdSet(ds.rows) then Err(ValueError)
    else
      var m, s := AsColumn(mass, "MASS"), AsColumn(smiles, "SMILES");
      MakeUnifiedDatabase(ConcatIndexName([Some(IndexName), m.indexName, s.indexName]),
                          (set c | c in DbColumns), UnifiedRows(ds, m.values, s.values))
  }

  /** Series without a name, or named MASS and SMILES, give the table `FromParsedDs` describes. */
  lemma AsWrittenAgreesOnColumnNames(ds: ParsedDataset, mass: NamedSeries<real>, smiles: NamedSeries<string>)
    requires Lands(mass, "MASS") && Lands(smiles, "SMILES")
    ensures FromParsedDsAsWritten(ds, mass, smiles) == FromParsedDs(ds, mass, smiles)
  {
  }

  /**
   * As written, a series named otherwise (as the generic database's
   * columns are, unless they are called MASS and SMILES) becomes an empty
   * frame on an unnamed index, the concatenated index loses the name
   * INDEX, and the constructor raises ValueError, where the same series
   * were meant to fill the MASS and SMILES columns.
   */
  lemma NamedSeriesLoseValues(ds: ParsedDataset, mass: NamedSeries<real>, smiles: NamedSeries<string>)
    requires LabelSet(mass.values) == IdSet(ds.rows) && LabelSet(smiles.values) == IdSet(ds.rows)
    requires mass.indexName == Some(IndexName) && smiles.indexName == Some(IndexName)
    requires !Lands(mass, "MASS") || !Lands(smiles, "SMILES")
    ensures FromParsedDsAsWritten(ds, mass, smiles) == Err(ValueError)
    ensures FromParsedDs(ds, mass, smiles).Ok?
    ensures var db := FromParsedDs(ds, mass, smiles).value;
      forall i :: 0 <= i < |db.rows| ==> CellAt(db.rows[i], MassCol) != NaN && CellAt(db.rows[i], SmilesCol) != NaN
  {
    var m, s := AsColumn(mass, "MASS"), AsColumn(smiles, "SMILES");
    ConcatIndexNameOfThree(Some(IndexName), m.indexName, s.indexName);
    FromParsedDsSpec(ds, mass, smiles);
    var db := FromParsedDs(ds, mass, smiles).value;
    forall i | 0 <= i < |db.rows| ensures CellAt(db.rows[i], MassCol) != NaN && CellAt(db.rows[i], SmilesCol) != NaN {
      var r := ds.rows[i];
      assert Ids(ds.rows)[i] == r.id;
      assert r.id in IdSet(ds.rows);
      assert db.rows[i] == UnifiedRow(r, mass.values, smiles.values);
    }
  }

  // ----- concatenation -----

  function AllColumns(dbs: seq<UnifiedDatabase>): set<DbColumn>
  {
    if |dbs| == 0 then {} else dbs[0].columns + AllColumns(dbs[1..])
  }

  /** The index name survives a concatenation only when every part carries it. */
  function CommonIndexName(dbs: seq<UnifiedDatabase>): Option<string>
    requires |dbs| > 0
  {
    if forall d :: d in dbs ==> d.indexName == dbs[0].indexName then dbs[0].indexName else None
  }

  /** A row extended to the combined columns, NaN where it had none. */
  function Pad(r: DbRow, columns: set<DbColumn>): DbRow
  {
    DbRow(r.id, map c | c in columns :: CellAt(r, c))
  }

  function PadRows(rows: seq<DbRow>, columns: set<DbColumn>): seq<DbRow>
  {
    Seqs.Map(rows, (r: DbRow) => Pad(r, columns))
  }

  function ConcatRows(dbs: seq<UnifiedDatabase>, columns: set<DbColumn>): seq<DbRow>
  {
    Seqs.Flatten(Seqs.Map(dbs, (d: UnifiedDatabase) => PadRows(d.rows, columns)))
  }

  function CellsOf(rows: seq<DbRow>, c: DbColumn): (vs: seq<Cell>)
    ensures |vs| == |rows|
    ensures forall i :: 0 <= i < |rows| ==> vs[i] == CellAt(rows[i], c)
  {
    seq(|rows|, i requires 0 <= i < |rows| => CellAt(rows[i], c))
  }

  /** `drop_duplicates(subset=c)`: the first row of each value of column `c`, in order. */
  function DropDuplicates(rows: seq<DbRow>, c: DbColumn): seq<DbRow>
  {
    if |rows| == 0 then []
    else
      var prefix := rows[..|rows| - 1];
      var last := rows[|rows| - 1];
      if CellAt(last, c) in CellsOf(prefix, c) then DropDuplicates(prefix, c)
      else DropDuplicates(prefix, c) + [last]
  }

  /** The kept rows' values are the distinct values of the column, in first-occurrence order. */
  lemma {:induction false} DropDuplicatesValues(rows: seq<DbRow>, c: DbColumn)
    ensures CellsOf(DropDuplicates(rows, c), c) == Seqs.Distinct(CellsOf(rows, c))
  {
    if |rows| > 0 {
      var prefix := rows[..|rows| - 1];
      var last := rows[|rows| - 1];
      DropDuplicatesValues(prefix, c);
      var vs := CellsOf(rows, c);
      assert vs[..|vs| - 1] == CellsOf(prefix, c);
      if CellAt(last, c) !in CellsOf(prefix, c) {
        assert CellsOf(DropDuplicates(rows, c), c) == CellsOf(DropDuplicates(prefix, c), c) + [CellAt(last, c)];
      }
    }
  }

  /** Every kept row is a row of the input with no earlier row holding the same value. */
  lemma {:induction false} DropDuplicatesFirst(rows: seq<DbRow>, c: DbColumn, r: DbRow)
    requires r in DropDuplicates(rows, c)
    ensures exists i :: 0 <= i < |rows| && rows[i] == r && CellAt(r, c) !in CellsOf(rows[..i], c)
  {
    var prefix := rows[..|rows| - 1];
    var last := rows[|rows| - 1];
    if r in DropDuplicates(prefix, c) {
      DropDuplicatesFirst(prefix, c, r);
      var i :| 0 <= i < |prefix| && prefix[i] == r && CellAt(r, c) !in CellsOf(prefix[..i], c);
      assert prefix[..i] == rows[..i];
    } else {
      assert r == last && CellAt(last, c) !in CellsOf(prefix, c);
      assert rows[..|rows| - 1] == prefix;
    }
  }

  /**
   * `pd.concat` of this table and the others, optionally de-duplicated on
   * one column; the result is validated like any new table.
   */
  function Concat(db: UnifiedDatabase, others: seq<UnifiedDatabase>, dropCol: Option<DbColumn>): Result<UnifiedDatabase>
  {
    var parts := [db] + others;
    var columns := AllColumns(parts);
    var rows := ConcatRows(parts, columns);
    if dropCol.Some? && dropCol.value !in columns then Err(KeyError)
    else
      var kept := if dropCol.Some? then DropDuplicates(rows, dropCol.value) else rows;
      MakeUnifiedDatabase(CommonIndexName(parts), columns, kept)
  }

  lemma {:induction false} AllColumnsMember(dbs: seq<UnifiedDatabase>, c: DbColumn)
    ensures c in AllColumns(dbs) <==> exists i :: 0 <= i < |dbs| && c in dbs[i].columns
  {
    if |dbs| > 0 {
      AllColumnsMember(dbs[1..], c);
      if c in AllColumns(dbs[1..]) {
        var i :| 0 <= i < |dbs[1..]| && c in dbs[1..][i].columns;
        assert c in dbs[i + 1].columns;
      }
      if exists i :: 0 <= i < |dbs| && c in dbs[i].columns {
        var i :| 0 <= i < |dbs| && c in dbs[i].columns;
        if i > 0 { assert dbs[1..][i - 1] == dbs[i]; }
      }
    }
  }

  /** Padding to the columns a rectangular table already has changes no row. */
  lemma PadRectangular(db: UnifiedDatabase)
    requires Rectangular(db)
    ensures PadRows(db.rows, db.columns) == db.rows
  {
    forall i | 0 <= i < |db.rows| ensures Pad(db.rows[i], db.columns) == db.rows[i] {
      assert db.rows[i] in db.rows;
    }
  }

  /**
   * Concatenating valid tables always yields a valid table. Without
   * de-duplication and when all tables have the same columns, its rows
   * are this table's rows followed by each other table's rows, in order.
   */
  lemma ConcatSpec(db: UnifiedDatabase, others: seq<UnifiedDatabase>)
    requires ValidHeader(db.indexName, db.columns)
    requires forall d :: d in others ==> ValidHeader(d.indexName, d.columns)
    ensures Concat(db, others, None).Ok?
    ensures (forall d :: d in others ==> d.columns == db.columns && Rectangular(d)) && Rectangular(db) ==>
      Concat(db, others, None).value.rows == db.rows + Seqs.Flatten(Seqs.Map(others, (d: UnifiedDatabase) => d.rows))
  {
    var parts := [db] + others;
    var columns := AllColumns(parts);
    forall c | c in DbColumns ensures c in columns {
      AllColumnsMember(parts, c);
      assert c in parts[0].columns;
    }
    assert CommonIndexName(parts) == Some(IndexName);
    if (forall d :: d in others ==> d.columns == db.columns && Rectangular(d)) && Rectangular(db) {
      forall c ensures c in columns <==> c in db.columns {
        AllColumnsMember(parts, c);
        if c in columns {
          var i :| 0 <= i < |parts| && c in parts[i].columns;
          if i > 0 { assert parts[i] in others; }
        }
      }
      assert columns == db.columns;
      SameColumnsRows(parts, columns);
      assert parts[1..] == others;
      assert Seqs.Map(parts, (d: UnifiedDatabase) => d.rows)
          == [db.rows] + Seqs.Map(others, (d: UnifiedDatabase) => d.rows);
    }
  }

  lemma {:induction false} SameColumnsRows(parts: seq<UnifiedDatabase>, columns: set<DbColumn>)
    requires forall d :: d in parts ==> d.columns == columns && Rectangular(d)
    ensures ConcatRows(parts, columns) == Seqs.Flatten(Seqs.Map(parts, (d: UnifiedDatabase) => d.rows))
  {
    if |parts| > 0 {
      SameColumnsRows(parts[1..], columns);
      assert parts[0] in parts;
      PadRectangular(parts[0]);
      assert Seqs.Map(parts, (d: UnifiedDatabase) => PadRows(d.rows, columns))[1..]
          == Seqs.Map(parts[1..], (d: UnifiedDatabase) => PadRows(d.rows, columns));
      assert Seqs.Map(parts, (d: UnifiedDatabase) => d.rows)[1..]
          == Seqs.Map(parts[1..], (d: UnifiedDatabase) => d.rows);
    }
  }

  /**
   * With de-duplication on a present column, the result holds each value of
   * that column once, in first-occurrence order, and every row it keeps is
   * the first concatenated row with its value.
   */
  lemma ConcatDropSpec(db: UnifiedDatabase, others: seq<UnifiedDatabase>, c: DbColumn)
    requires ValidHeader(db.indexName, db.columns)
    requires forall d :: d in others ==> ValidHeader(d.indexName, d.columns)
    requires c in DbColumns
    ensures Concat(db, others, Some(c)).Ok?
    ensures var parts := [db] + others;
      var rows := ConcatRows(parts, AllColumns(parts));
      var kept := Concat(db, others, Some(c)).value.rows;
      CellsOf(kept, c) == Seqs.Distinct(CellsOf(rows, c))
      && forall r :: r in kept ==> exists i :: 0 <= i < |rows| && rows[i] == r && CellAt(r, c) !in CellsOf(rows[..i], c)
  {
    var parts := [db] + others;
    var columns := AllColumns(parts);
    var rows := ConcatRows(parts, columns);
    forall c' | c' in DbColumns ensures c' in columns {
      AllColumnsMember(parts, c');
      assert c' in parts[0].columns;
    }
    assert CommonIndexName(parts) == Some(IndexName);
    DropDuplicatesValues(rows, c);
    forall r | r in DropDuplicates(rows, c)
      ensures exists i :: 0 <= i < |rows| && rows[i] == r && CellAt(r, c) !in CellsOf(rows[..i], c)
    {
      DropDuplicatesFirst(rows, c, r);
    }
  }

  /** A de-duplication column that is not a column of the result raises KeyError. */
  lemma ConcatMissingColumn(db: UnifiedDatabase, others: seq<UnifiedDatabase>, c: DbColumn)
    requires forall i :: 0 <= i < |others| + 1 ==> c !in ([db] + others)[i].columns
    ensures Concat(db, others, Some(c)) == Err(KeyError)
  {
    AllColumnsMember([db] + others, c);
  }

  // ----- subsets -----

  function DbRowsWithId(rows: seq<DbRow>, id: string): seq<DbRow>
  {
    Seqs.Filter(rows, (r: DbRow) => r.id == id)
  }

  function DbRowsAt(rows: seq<DbRow>, ids: seq<string>): seq<DbRow>
  {
    Seqs.Flatten(Seqs.Map(ids, (id: string) => DbRowsWithId(rows, id)))
  }

  /** `df.loc[ids]` under the index name INDEX: an absent label raises KeyError. */
  function GetSubset(db: UnifiedDatabase, ids: seq<string>): Result<UnifiedDatabase>
  {
    if exists id :: id in ids && id !in DbIds(db.rows) then Err(KeyError)
    else MakeUnifiedDatabase(Some(IndexName), db.columns, DbRowsAt(db.rows, ids))
  }

  /**
   * On a valid table the subset fails iff some label is absent; otherwise
   * it keeps the columns and holds exactly the rows carrying the given labels.
   */
  lemma GetSubsetSpec(db: UnifiedDatabase, ids: seq<string>)
    requires ValidHeader(db.indexName, db.columns)
    ensures GetSubset(db, ids).Err? <==> exists id :: id in ids && id !in DbIds(db.rows)
    ensures GetSubset(db, ids).Ok? ==>
      GetSubset(db, ids).value.columns == db.columns
      && GetSubset(db, ids).value.indexName == Some(IndexName)
      && forall r :: r in GetSubset(db, ids).value.rows <==> r in db.rows && r.id in ids
  {
    if GetSubset(db, ids).Ok? {
      forall r ensures r in DbRowsAt(db.rows, ids) <==> r in db.rows && r.id in ids {
        var parts := Seqs.Map(ids, (id: string) => DbRowsWithId(db.rows, id));
        Seqs.FlattenMember(parts, r);
        if r in db.rows && r.id in ids {
          var k :| 0 <= k < |ids| && ids[k] == r.id;
          assert r in parts[k];
        }
      }
    }
  }
}
