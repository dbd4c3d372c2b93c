/**
 * Scatter data: a table with the names of its vector, colour, symbol,
 * size, hover and annotation columns. Building it checks that every named
 * column exists and that there are two or three vector columns, and
 * derives the colour and symbol series, in which filtered-out values and
 * rows are renamed to the filtered name.
 */
module Scatter {
  import opened Wrappers

  /** A series: row labels and one value per row. */
  datatype Series = Series(index: seq<string>, values: seq<string>)

  predicate ValidSeries(s: Series) {
    |s.index| == |s.values|
  }

  /** A table: row labels and its columns by name. */
  datatype Table = Table(index: seq<string>, columns: map<string, seq<string>>)

  /** Every column has one value per row. */
  predicate ValidTable(t: Table) {
    forall c :: c in t.columns ==> |t.columns[c]| == |t.index|
  }

  /** `dataframe[name]`. */
  function Column(t: Table, name: string): (s: Series)
    requires ValidTable(t) && name in t.columns
    ensures ValidSeries(s)
  {
    Series(t.index, t.columns[name])
  }

  /** The value-filter step: a value not among the filter values becomes the filtered name. */
  function ByValue(v: string, filterValues: Option<seq<string>>, filteredName: string): string
  {
    if filterValues.Some? && v !in filterValues.value then filteredName else v
  }

  /** Both steps for one row: a label outside the index filter renames the row as well. */
  function FilteredValue(rowLabel: string, v: string, filterValues: Option<seq<string>>,
                         indexFilter: Option<seq<string>>, filteredName: string): string
  {
    if indexFilter.Some? && rowLabel !in indexFilter.value then filteredName
    else ByValue(v, filterValues, filteredName)
  }

  /** `_get_filtered_series` as a value: each row renamed by its own value and label. */
  function FilteredSeries(s: Series, filterValues: Option<seq<string>>, indexFilter: Option<seq<string>>,
                          filteredName: string): Result<Series>
    requires ValidSeries(s)
  {
    if filterValues.Some? && filteredName in s.values then Err(ValueError)
    else Ok(Series(s.index, FilteredValues(s, filterValues, indexFilter, filteredName)))
  }

  function FilteredValues(s: Series, filterValues: Option<seq<string>>, indexFilter: Option<seq<string>>,
                          filteredName: string): (vs: seq<string>)
    requires ValidSeries(s)
    ensures |vs| == |s.values|
    ensures forall i :: 0 <= i < |vs| ==> vs[i] == FilteredValue(s.index[i], s.values[i], filterValues, indexFilter, filteredName)
  {
    seq(|s.values|, i requires 0 <= i < |s.values| => FilteredValue(s.index[i], s.values[i], filterValues, indexFilter, filteredName))
  }

  /**
   * Filtering raises ValueError exactly when filter values are given and
   * the filtered name already occurs. Otherwise the labels stay, a row
   * keeps its value unless its value is not among the filter values or its
   * label is not in the index filter, and then it holds the filtered name;
   * with filter values, a row holds the filtered name exactly when it was
   * filtered out.
   */
  lemma FilteredSeriesSpec(s: Series, filterValues: Option<seq<string>>, indexFilter: Option<seq<string>>,
                           filteredName: string)
    requires ValidSeries(s)
    ensures var r := FilteredSeries(s, filterValues, indexFilter, filteredName);
      && (r.Err? <==> filterValues.Some? && filteredName in s.values)
      && (r.Err? ==> r.error == ValueError)
      && (r.Ok? ==>
        && r.value.index == s.index
        && |r.value.values| == |s.values|
        && (forall i :: 0 <= i < |s.values| ==>
              var out := (filterValues.Some? && s.values[i] !in filterValues.value)
                         || (indexFilter.Some? && s.index[i] !in indexFilter.value);
              && (out ==> r.value.values[i] == filteredName)
              && (!out ==> r.value.values[i] == s.values[i])
              && (filterValues.Some? ==> (r.value.values[i] == filteredName <==> out))))
  {
  }

  /**
   * Filtering the filtered series again with filter values raises exactly
   * when the first filtering renamed some row.
   */
  lemma RefilterRaises(s: Series, filterValues: seq<string>, indexFilter: Option<seq<string>>, filteredName: string)
    requires ValidSeries(s)
    requires FilteredSeries(s, Some(filterValues), indexFilter, filteredName).Ok?
    ensures var t := FilteredSeries(s, Some(filterValues), indexFilter, filteredName).value;
      && ValidSeries(t)
      && (FilteredSeries(t, Some(filterValues), indexFilter, filteredName).Err? <==> t.values != s.values)
  {
    var t := FilteredSeries(s, Some(filterValues), indexFilter, filteredName).value;
    FilteredSeriesSpec(s, Some(filterValues), indexFilter, filteredName);
    if t.values != s.values {
      var i :| 0 <= i < |s.values| && t.values[i] != s.values[i];
      assert t.values[i] == filteredName;
    }
  }

  /**
   * `_get_filtered_series`: the series is copied; with filter values, a
   * filtered name that is already a value raises, and every value not
   * among them is renamed; with an index filter, the rows whose labels are
   * not in it are renamed in the copy.
   */
  method GetFilteredSeries(series: Series, filterValues: Option<seq<string>>, indexFilter: Option<seq<string>>,
                           filteredName: string) returns (r: Result<Series>)
    requires ValidSeries(series)
    ensures r == FilteredSeries(series, filterValues, indexFilter, filteredName)
  {
    var n := |series.values|;
    var copy := new string[n](i requires 0 <= i < n => series.values[i]);
    assert copy[..] == series.values;
    if filterValues.Some? {
      for i := 0 to n
        invariant copy[..] == series.values
        invariant forall k :: 0 <= k < i ==> series.values[k] != filteredName
      {
        if copy[i] == filteredName {
          assert series.values[i] == filteredName;
          return Err(ValueError);
        }
      }
      assert filteredName !in series.values;
      for i := 0 to n
        invariant forall k :: 0 <= k < i ==> copy[k] == ByValue(series.values[k], filterValues, filteredName)
        invariant forall k :: i <= k < n ==> copy[k] == series.values[k]
      {
        if copy[i] !in filterValues.value {
          copy[i] := filteredName;
        }
      }
    }
    assert forall k :: 0 <= k < n ==> copy[k] == ByValue(series.values[k], filterValues, filteredName);
    if indexFilter.Some? {
      for i := 0 to n
        invariant forall k :: 0 <= k < i ==>
          copy[k] == FilteredValue(series.index[k], series.values[k], filterValues, indexFilter, filteredName)
        invariant forall k :: i <= k < n ==> copy[k] == ByValue(series.values[k], filterValues, filteredName)
      {
        if series.index[i] !in indexFilter.value {
          copy[i] := filteredName;
        }
      }
    }
    assert forall k :: 0 <= k < n ==>
      copy[k] == FilteredValue(series.index[k], series.values[k], filterValues, indexFilter, filteredName);
    assert copy[..] == FilteredValues(series, filterValues, indexFilter, filteredName);
    r := Ok(Series(series.index, copy[..]));
  }

  /** The arguments of `ScatterData`. */
  datatype ScatterInput = ScatterInput(
    dataframe: Table,
    vectorColNames: seq<string>,
    colorColName: Option<string>,
    symbolColName: Option<string>,
    sizeColName: Option<string>,
    hoverDataColNames: Option<seq<string>>,
    annotationColNames: Option<seq<string>>,
    colorFilter: Option<seq<string>>,
    symbolFilter: Option<seq<string>>,
    indexFilter: Option<seq<string>>,
    filteredName: string)

  /** `ScatterData` after `__post_init__`: the arguments and the derived fields. */
  datatype ScatterData = ScatterData(
    input: ScatterInput,
    dimensionality: int,
    colorColumn: Option<Series>,
    symbolColumn: Option<Series>,
    sizeColumn: Option<Series>)

  predicate NamePresent(t: Table, name: Option<string>) {
    name.None? || name.value in t.columns
  }

  predicate NamesPresent(t: Table, names: Option<seq<string>>) {
    names.None? || forall i :: 0 <= i < |names.value| ==> names.value[i] in t.columns
  }

  /** `_chk_col_names` passes: every named column is a column of the table. */
  predicate ColumnNamesValid(p: ScatterInput) {
    && NamePresent(p.dataframe, p.colorColName)
    && NamePresent(p.dataframe, p.symbolColName)
    && NamePresent(p.dataframe, p.sizeColName)
    && NamesPresent(p.dataframe, p.annotationColNames)
    && NamesPresent(p.dataframe, p.hoverDataColNames)
    && NamesPresent(p.dataframe, Some(p.vectorColNames))
  }

  /** The filtered name already occurs in a named column that is filtered by value. */
  predicate Conflict(p: ScatterInput, name: Option<string>, filter: Option<seq<string>>)
    requires ValidTable(p.dataframe)
  {
    name.Some? && name.value in p.dataframe.columns && filter.Some? &&
    p.filteredName in Column(p.dataframe, name.value).values
  }

  /**
   * `ScatterData.__post_init__`: check the column names, set the
   * dimensionality, then the colour column (filtered by the colour filter),
   * the symbol column (filtered by the symbol filter) and the size column
   * (unfiltered). Each fails with ValueError; a column whose name is None
   * stays None.
   */
  method NewScatterData(p: ScatterInput) returns (r: Result<ScatterData>)
    requires ValidTable(p.dataframe)
    ensures r.Err? <==>
      || !ColumnNamesValid(p)
      || !(2 <= |p.vectorColNames| <= 3)
      || Conflict(p, p.colorColName, p.colorFilter)
      || Conflict(p, p.symbolColName, p.symbolFilter)
    ensures r.Err? ==> r.error == ValueError
    ensures r.Ok? ==>
      && r.value.input == p
      && r.value.dimensionality == |p.vectorColNames|
      && (r.value.colorColumn.Some? <==> p.colorColName.Some?)
      && (r.value.colorColumn.Some? ==>
            Ok(r.value.colorColumn.value) ==
            FilteredSeries(Column(p.dataframe, p.colorColName.value), p.colorFilter, p.indexFilter, p.filteredName))
      && (r.value.symbolColumn.Some? <==> p.symbolColName.Some?)
      && (r.value.symbolColumn.Some? ==>
            Ok(r.value.symbolColumn.value) ==
            FilteredSeries(Column(p.dataframe, p.symbolColName.value), p.symbolFilter, p.indexFilter, p.filteredName))
      && r.value.sizeColumn == if p.sizeColName.None? then None else Some(Column(p.dataframe, p.sizeColName.value))
  {
    if !ColumnNamesValid(p) {
      return Err(ValueError);
    }
    var dimensionality := |p.vectorColNames|;
    if !(2 <= dimensionality <= 3) {
      return Err(ValueError);
    }
    var color: Option<Series> := None;
    if p.colorColName.Some? {
      var c := GetFilteredSeries(Column(p.dataframe, p.colorColName.value), p.colorFilter, p.indexFilter, p.filteredName);
      if c.Err? {
        return Err(c.error);
      }
      color := Some(c.value);
    }
    var symbol: Option<Series> := None;
    if p.symbolColName.Some? {
      var s := GetFilteredSeries(Column(p.dataframe, p.symbolColName.value), p.symbolFilter, p.indexFilter, p.filteredName);
      if s.Err? {
        return Err(s.error);
      }
      symbol := Some(s.value);
    }
    var size: Option<Series> := None;
    if p.sizeColName.Some? {
      size := Some(Column(p.dataframe, p.sizeColName.value));
    }
    r := Ok(ScatterData(p, dimensionality, color, symbol, size));
  }
}
