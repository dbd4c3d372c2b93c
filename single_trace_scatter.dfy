/**
 * The helpers of the single-trace scatter: legend entries ("dummy
 * traces") for every combination of colour class and symbol class, with
 * their names, colours, border colours and symbols; the colour bar; and
 * the hover template.
 */
module TraceHelpers {
  import opened Wrappers
  import Seqs
  import Dicts
  import PyStrings
  import opened Symbols
  import Scatter
  import opened MarkerMaps

  // ---------------------------------------------------------------
  // Names
  // ---------------------------------------------------------------

  /**
   * `_generate_dummy_trace_name`: no name for two absent classes, the
   * present one alone, otherwise `"colour, symbol"`.
   */
  function TraceName(colorClass: Option<string>, symbolClass: Option<string>): (r: Option<string>)
    ensures r.None? <==> colorClass.None? && symbolClass.None?
    ensures colorClass.None? && symbolClass.Some? ==> r == symbolClass
    ensures colorClass.Some? && symbolClass.None? ==> r == colorClass
    ensures colorClass.Some? && symbolClass.Some? ==>
      && PyStrings.StartsWith(r.value, colorClass.value + ", ")
      && r.value[|colorClass.value| + 2..] == symbolClass.value
  {
    match (colorClass, symbolClass)
    case (None, None) => None
    case (None, Some(s)) => Some(s)
    case (Some(c), None) => Some(c)
    case (Some(c), Some(s)) => Some(c + ", " + s)
  }

  /** One name shortened as written: longer than the threshold, its first `threshold + 1` characters and `"..."`. */
  function TruncateNameAsWritten(n: Option<string>, threshold: int): Option<string>
  {
    if n.Some? && |n.value| > threshold then Some(PyStrings.Slice(n.value, 0, threshold + 1) + "...") else n
  }

  /** `_truncate` as written: every name shortened by `TruncateNameAsWritten`. */
  function TruncateAsWritten(names: seq<Option<string>>, threshold: int): (r: seq<Option<string>>)
    ensures |r| == |names|
    ensures forall i :: 0 <= i < |names| ==> r[i] == TruncateNameAsWritten(names[i], threshold)
  {
    seq(|names|, i requires 0 <= i < |names| => TruncateNameAsWritten(names[i], threshold))
  }

  /**
   * As written, a name just one character longer than the threshold
   * loses nothing and gains `"..."`: the legend entry grows instead of
   * shrinking (threshold 3: `"abcd"` becomes `"abcd..."`).
   */
  lemma TruncateAsWrittenGrows(n: string, threshold: nat)
    requires |n| == threshold + 1
    ensures TruncateAsWritten([Some(n)], threshold) == [Some(n + "...")]
    ensures |TruncateAsWritten([Some(n)], threshold)[0].value| > |n|
  {
    assert n[0..|n|] == n;
  }

  /** One name shortened as intended: longer than the threshold, its first `threshold` characters and `"..."`. */
  function TruncateName(n: Option<string>, threshold: int): Option<string>
  {
    if n.Some? && |n.value| > threshold then Some(PyStrings.Slice(n.value, 0, threshold) + "...") else n
  }

  /** `_truncate` as intended: every name shortened by `TruncateName`. */
  function Truncate(names: seq<Option<string>>, threshold: int): (r: seq<Option<string>>)
    ensures |r| == |names|
    ensures forall i :: 0 <= i < |names| ==> r[i] == TruncateName(names[i], threshold)
  {
    seq(|names|, i requires 0 <= i < |names| => TruncateName(names[i], threshold))
  }

  /**
   * Truncating keeps the number of names and leaves absent names and names
   * up to the threshold alone; a longer name keeps its first `threshold`
   * characters, at least one character is dropped, and `"..."` marks the
   * cut.
   */
  lemma TruncateSpec(names: seq<Option<string>>, threshold: nat)
    ensures |Truncate(names, threshold)| == |names|
    ensures forall i :: 0 <= i < |names| && (names[i].None? || |names[i].value| <= threshold) ==>
      Truncate(names, threshold)[i] == names[i]
    ensures forall i :: 0 <= i < |names| && names[i].Some? && |names[i].value| > threshold ==>
      && Truncate(names, threshold)[i] == Some(names[i].value[..threshold] + "...")
      && |Truncate(names, threshold)[i].value| - 3 < |names[i].value|
  {
  }

  // ---------------------------------------------------------------
  // Colours and symbols of the legend entries
  // ---------------------------------------------------------------

  /** Looks up each present class; an absent class gives None; a class missing from the map raises KeyError. */
  function LookupAll<V>(classes: seq<Option<string>>, m: Dicts.Dict<string, V>): (r: Result<seq<Option<V>>>)
    ensures r.Err? <==> exists i :: 0 <= i < |classes| && classes[i].Some? && Dicts.Get(m, classes[i].value).None?
    ensures r.Err? ==> r.error == KeyError
    ensures r.Ok? ==> |r.value| == |classes|
    ensures r.Ok? ==> forall i :: 0 <= i < |classes| ==>
      r.value[i] == (if classes[i].None? then None else Dicts.Get(m, classes[i].value))
    decreases |classes|
  {
    if |classes| == 0 then Ok([])
    else
      var rest := LookupAll(classes[1..], m);
      if classes[0].Some? && Dicts.Get(m, classes[0].value).None? then Err(KeyError)
      else if rest.Err? then
        assert exists i :: 1 <= i < |classes| && classes[i].Some? && Dicts.Get(m, classes[i].value).None? by {
          var i :| 0 <= i < |classes[1..]| && classes[1..][i].Some? && Dicts.Get(m, classes[1..][i].value).None?;
          assert classes[i + 1] == classes[1..][i];
        }
        Err(KeyError)
      else
        Ok([if classes[0].None? then None else Dicts.Get(m, classes[0].value)] + rest.value)
  }

  /** `n` copies of `x`. */
  function Repeat<T>(x: T, n: nat): (r: seq<T>)
    ensures |r| == n && forall i :: 0 <= i < n ==> r[i] == x
  {
    seq(n, _ => x)
  }

  /**
   * `_generate_dummy_colors`: black for every symbol class with
   * continuous colour, no colour for every colour class without a map,
   * else each colour class's colour.
   */
  function DummyColors(colorClasses: seq<Option<string>>, symbolClasses: seq<Option<string>>,
                       colormap: Option<Dicts.Dict<string, string>>, colorType: ColorType): Result<seq<Option<string>>>
  {
    if colorType == Continuous then Ok(Repeat(Some("black"), |symbolClasses|))
    else if colormap.None? then Ok(Repeat(None, |colorClasses|))
    else LookupAll(colorClasses, colormap.value)
  }

  /** `_generate_dummy_symbols`: no symbols without a map or with an empty one, else each class's symbol. */
  function DummySymbols(symbolClasses: seq<Option<string>>, symbolMap: Option<Dicts.Dict<string, Symbol>>): Result<seq<Option<Symbol>>>
  {
    if symbolMap.None? || |symbolMap.value| == 0 then Ok(Repeat(None, |symbolClasses|))
    else LookupAll(symbolClasses, symbolMap.value)
  }

  // ---------------------------------------------------------------
  // Legend classes: colour classes times symbol classes
  // ---------------------------------------------------------------

  /** The pairs of one colour class with every symbol class. */
  function Row<A, B>(x: A, b: seq<B>): (r: seq<(A, B)>)
    ensures |r| == |b| && forall j :: 0 <= j < |b| ==> r[j] == (x, b[j])
  {
    seq(|b|, j requires 0 <= j < |b| => (x, b[j]))
  }

  /** `itertools.product(a, b)`: all pairs, the first component varying slowest. */
  function Product<A, B>(a: seq<A>, b: seq<B>): (p: seq<(A, B)>)
    decreases |a|
  {
    if |a| == 0 then [] else Row(a[0], b) + Product(a[1..], b)
  }

  /** The product has `|a| * |b|` pairs. */
  lemma {:induction false} ProductLength<A, B>(a: seq<A>, b: seq<B>)
    ensures |Product(a, b)| == |a| * |b|
    decreases |a|
  {
    if |a| > 0 {
      ProductLength(a[1..], b);
      assert |a| * |b| == |b| + (|a| - 1) * |b|;
    }
  }

  /** Pair `i * |b| + j` of the product is `(a[i], b[j])`. */
  lemma {:induction false} ProductAt<A, B>(a: seq<A>, b: seq<B>, i: nat, j: nat)
    requires i < |a| && j < |b|
    ensures i * |b| + j < |Product(a, b)|
    ensures Product(a, b)[i * |b| + j] == (a[i], b[j])
    decreases |a|
  {
    ProductLength(a, b);
    MulBound(i, j, |a|, |b|);
    if i > 0 {
      ProductAt(a[1..], b, i - 1, j);
      assert i * |b| + j == |b| + ((i - 1) * |b| + j);
      assert a[1..][i - 1] == a[i];
    }
  }

  lemma MulBound(i: nat, j: nat, n: nat, m: nat)
    requires i < n && j < m
    ensures i * m + j < n * m
  {
    assert (i + 1) * m <= n * m;
  }

  /** A pair is in the product iff its colour class is in `a` and its symbol class in `b`. */
  lemma {:induction false} ProductMember<A, B>(a: seq<A>, b: seq<B>, x: A, y: B)
    ensures (x, y) in Product(a, b) <==> x in a && y in b
    decreases |a|
  {
    if |a| > 0 {
      ProductMember(a[1..], b, x, y);
      assert x in a <==> x == a[0] || x in a[1..];
    }
  }

  /** The colour classes of the legend: the colour column's distinct values for discrete colour, else one absent class. */
  function ColorClasses(colorColumn: Option<Scatter.Series>, colorType: ColorType): seq<Option<string>>
  {
    if colorColumn.Some? && colorType == Discrete then Somes(Unique(colorColumn)) else [None]
  }

  /** The symbol classes of the legend: the symbol column's distinct values, else one absent class. */
  function SymbolClasses(symbolColumn: Option<Scatter.Series>): seq<Option<string>>
  {
    if symbolColumn.Some? then Somes(Unique(symbolColumn)) else [None]
  }

  function Somes(s: seq<string>): (r: seq<Option<string>>)
    ensures |r| == |s| && forall i :: 0 <= i < |s| ==> r[i] == Some(s[i])
  {
    seq(|s|, i requires 0 <= i < |s| => Some(s[i]))
  }

  function Firsts<A, B>(p: seq<(A, B)>): (r: seq<A>)
    ensures |r| == |p| && forall i :: 0 <= i < |p| ==> r[i] == p[i].0
  {
    seq(|p|, i requires 0 <= i < |p| => p[i].0)
  }

  function Seconds<A, B>(p: seq<(A, B)>): (r: seq<B>)
    ensures |r| == |p| && forall i :: 0 <= i < |p| ==> r[i] == p[i].1
  {
    seq(|p|, i requires 0 <= i < |p| => p[i].1)
  }

  /** A legend entry: name (also its legend group), colour, border colour, symbol and trace type. */
  datatype DummyTrace = DummyTrace(
    name: Option<string>,
    color: Option<string>,
    borderColor: Option<string>,
    symbol: Option<Symbol>,
    traceType: string)

  /** The trace type of a dimensionality: `scatter3d` for 3, `scattergl` otherwise. */
  function TraceType(dimensionality: int): string {
    if dimensionality == 3 then "scatter3d" else "scattergl"
  }

  function Min(x: int, y: int): int {
    if x <= y then x else y
  }

  /** Python's `zip` of four lists: as many entries as the shortest list has. */
  function Zip4(names: seq<Option<string>>, colors: seq<Option<string>>, borders: seq<Option<string>>,
                symbols: seq<Option<Symbol>>, traceType: string): (r: seq<DummyTrace>)
    ensures |r| == Min(Min(|names|, |colors|), Min(|borders|, |symbols|))
    ensures forall k :: 0 <= k < |r| ==> r[k] == DummyTrace(names[k], colors[k], borders[k], symbols[k], traceType)
  {
    var n := Min(Min(|names|, |colors|), Min(|borders|, |symbols|));
    seq(n, k requires 0 <= k < n => DummyTrace(names[k], colors[k], borders[k], symbols[k], traceType))
  }

  /** The names of the legend entries, one per pair. */
  function TraceNames(pc: seq<(Option<string>, Option<string>)>): (r: seq<Option<string>>)
    ensures |r| == |pc| && forall k :: 0 <= k < |pc| ==> r[k] == TraceName(pc[k].0, pc[k].1)
  {
    seq(|pc|, k requires 0 <= k < |pc| => TraceName(pc[k].0, pc[k].1))
  }

  /** The pairs of colour class and symbol class of the legend, in product order. */
  function LegendClasses(colorColumn: Option<Scatter.Series>, symbolColumn: Option<Scatter.Series>,
                         colorType: ColorType): seq<(Option<string>, Option<string>)>
  {
    Product(ColorClasses(colorColumn, colorType), SymbolClasses(symbolColumn))
  }

  /**
   * `_generate_dummy_traces`: one legend entry per pair of colour class
   * and symbol class, named after both (names shortened by `_truncate` as
   * the program has it when a truncation is set), with the pair's colour,
   * border colour and symbol; a lookup
   * that misses raises KeyError. Python's `zip` stops at the shortest list.
   */
  function DummyTraces(colorColumn: Option<Scatter.Series>, symbolColumn: Option<Scatter.Series>, maps: Maps,
                       colorType: ColorType, truncation: Option<int>, dimensionality: int): Result<seq<DummyTrace>>
  {
    var pc := LegendClasses(colorColumn, symbolColumn, colorType);
    var colors := DummyColors(Firsts(pc), SymbolClasses(symbolColumn), maps.colormap, colorType);
    var borders := DummyColors(Firsts(pc), SymbolClasses(symbolColumn), maps.borderColormap, colorType);
    var symbols := DummySymbols(Seconds(pc), Some(maps.symbolMap));
    var names := TraceNames(pc);
    var shown := if truncation.Some? then TruncateAsWritten(names, truncation.value) else names;
    if colors.Err? then Err(colors.error)
    else if borders.Err? then Err(borders.error)
    else if symbols.Err? then Err(symbols.error)
    else Ok(Zip4(shown, colors.value, borders.value, symbols.value, TraceType(dimensionality)))
  }

  /**
   * The marker maps cover the columns: a colormap exactly for discrete
   * colour, with a border colormap beside it, and every distinct value of
   * the colour column has a colour and a border colour and every distinct
   * value of the symbol column a symbol.
   */
  predicate Covers(maps: Maps, colorType: ColorType, colorColumn: Option<Scatter.Series>, symbolColumn: Option<Scatter.Series>)
  {
    && (maps.colormap.Some? <==> colorType == Discrete)
    && (maps.borderColormap.Some? <==> maps.colormap.Some?)
    && (maps.colormap.Some? ==> forall k :: k in Unique(colorColumn) ==>
          Dicts.Get(maps.colormap.value, k).Some? && Dicts.Get(maps.borderColormap.value, k).Some?)
    && (forall k :: k in Unique(symbolColumn) ==> Dicts.Get(maps.symbolMap, k).Some?)
  }

  /**
   * Marker maps as `MarkerMaps.from_parameters` returns them for the same
   * columns (colours read `ColorOf`, symbols `SymbolOf`, border keys the
   * colormap's keys) cover the columns.
   */
  lemma FromParametersCovers(maps: Maps, colorType: ColorType,
                             additionalColors: Option<Dicts.Dict<string, string>>,
                             additionalSymbols: Option<Dicts.Dict<string, Symbol>>,
                             colorColumn: Option<Scatter.Series>, symbolColumn: Option<Scatter.Series>,
                             filteredName: Option<string>, dimensionality: int)
    requires maps.colormap.Some? <==> colorType == Discrete
    requires maps.borderColormap.Some? <==> maps.colormap.Some?
    requires maps.colormap.Some? ==>
      && (forall k :: Dicts.Get(maps.colormap.value, k) == ColorOf(additionalColors, colorColumn, filteredName, k))
      && Dicts.Keys(maps.borderColormap.value) == Dicts.Keys(maps.colormap.value)
    requires forall k :: Dicts.Get(maps.symbolMap, k) == SymbolOf(additionalSymbols, symbolColumn, filteredName, dimensionality, k)
    ensures Covers(maps, colorType, colorColumn, symbolColumn)
  {
    if maps.colormap.Some? {
      forall k | k in Unique(colorColumn)
        ensures Dicts.Get(maps.colormap.value, k).Some? && Dicts.Get(maps.borderColormap.value, k).Some?
      {
        assert ColorOf(additionalColors, colorColumn, filteredName, k).Some?;
        SameKeysSameDomain(maps.borderColormap.value, maps.colormap.value, k);
      }
    }
    forall k | k in Unique(symbolColumn) ensures Dicts.Get(maps.symbolMap, k).Some? {
      assert SymbolOf(additionalSymbols, symbolColumn, filteredName, dimensionality, k).Some?;
    }
  }

  /** Equal key lists look up the same keys. */
  lemma SameKeysSameDomain<V>(a: Dicts.Dict<string, V>, b: Dicts.Dict<string, V>, k: string)
    requires Dicts.Keys(a) == Dicts.Keys(b)
    ensures Dicts.Get(a, k).None? <==> Dicts.Get(b, k).None?
  {
  }

  /** The colour of a legend entry's colour class: black for continuous colour, none without a map, else the class's colour. */
  function ColorAt(cls: Option<string>, colormap: Option<Dicts.Dict<string, string>>, colorType: ColorType): Option<string>
  {
    if colorType == Continuous then Some("black")
    else if colormap.None? || cls.None? then None
    else Dicts.Get(colormap.value, cls.value)
  }

  /** The symbol of a legend entry's symbol class: none without a class or with an empty map, else the class's symbol. */
  function SymbolAt(cls: Option<string>, symbolMap: Dicts.Dict<string, Symbol>): Option<Symbol>
  {
    if cls.None? || |symbolMap| == 0 then None else Dicts.Get(symbolMap, cls.value)
  }

  /**
   * `_generate_dummy_colors` gives every class its `ColorAt`, provided
   * continuous colour has one class per symbol class and a colormap has
   * every present class; a missing class raises KeyError.
   */
  lemma DummyColorsSpec(classes: seq<Option<string>>, symbolClasses: seq<Option<string>>,
                        colormap: Option<Dicts.Dict<string, string>>, colorType: ColorType)
    ensures var r := DummyColors(classes, symbolClasses, colormap, colorType);
      && (r.Err? <==>
            (colorType == Discrete && colormap.Some? &&
             exists i :: 0 <= i < |classes| && classes[i].Some? && Dicts.Get(colormap.value, classes[i].value).None?))
      && (r.Err? ==> r.error == KeyError)
      && (r.Ok? ==> |r.value| == if colorType == Continuous then |symbolClasses| else |classes|)
      && (r.Ok? && (colorType == Continuous ==> |symbolClasses| == |classes|) ==>
            forall i :: 0 <= i < |classes| ==> r.value[i] == ColorAt(classes[i], colormap, colorType))
  {
  }

  /** `_generate_dummy_symbols` gives every class its `SymbolAt`; a missing class of a non-empty map raises KeyError. */
  lemma DummySymbolsSpec(classes: seq<Option<string>>, symbolMap: Dicts.Dict<string, Symbol>)
    ensures var r := DummySymbols(classes, Some(symbolMap));
      && (r.Err? <==>
            (|symbolMap| > 0 &&
             exists i :: 0 <= i < |classes| && classes[i].Some? && Dicts.Get(symbolMap, classes[i].value).None?))
      && (r.Err? ==> r.error == KeyError)
      && (r.Ok? ==> |r.value| == |classes| && forall i :: 0 <= i < |classes| ==> r.value[i] == SymbolAt(classes[i], symbolMap))
  {
  }

  /** The legend entry of a pair: its name, the colour and border colour of its colour class, the symbol of its symbol class. */
  predicate TraceOf(t: DummyTrace, pair: (Option<string>, Option<string>), maps: Maps, colorType: ColorType,
                    truncation: Option<int>, dimensionality: int)
  {
    && t.name == (if truncation.None? then TraceName(pair.0, pair.1)
                  else TruncateNameAsWritten(TraceName(pair.0, pair.1), truncation.value))
    && t.color == ColorAt(pair.0, maps.colormap, colorType)
    && t.borderColor == ColorAt(pair.0, maps.borderColormap, colorType)
    && t.symbol == SymbolAt(pair.1, maps.symbolMap)
    && t.traceType == TraceType(dimensionality)
  }

  /** Every present class of a legend pair is a distinct value of its column, and a present colour class means discrete colour. */
  lemma PairClasses(colorColumn: Option<Scatter.Series>, symbolColumn: Option<Scatter.Series>, colorType: ColorType, k: nat)
    requires k < |LegendClasses(colorColumn, symbolColumn, colorType)|
    ensures var pair := LegendClasses(colorColumn, symbolColumn, colorType)[k];
      && (pair.0.Some? ==> colorType == Discrete && pair.0.value in Unique(colorColumn))
      && (pair.1.Some? ==> pair.1.value in Unique(symbolColumn))
  {
    var cc, sc := ColorClasses(colorColumn, colorType), SymbolClasses(symbolColumn);
    var pair := Product(cc, sc)[k];
    ProductMember(cc, sc, pair.0, pair.1);
    if pair.0.Some? {
      var i :| 0 <= i < |cc| && cc[i] == pair.0;
    }
    if pair.1.Some? {
      var j :| 0 <= j < |sc| && sc[j] == pair.1;
    }
  }

  /** With continuous colour there is one pair per symbol class. */
  lemma ContinuousPairs(colorColumn: Option<Scatter.Series>, symbolColumn: Option<Scatter.Series>)
    ensures |LegendClasses(colorColumn, symbolColumn, Continuous)| == |SymbolClasses(symbolColumn)|
  {
    ProductLength(ColorClasses(colorColumn, Continuous), SymbolClasses(symbolColumn));
  }

  /**
   * With marker maps that cover the columns, the legend never raises and
   * has one entry per pair of colour class and symbol class, in product
   * order, each the entry `TraceOf` its pair: named after the pair, the
   * name shortened as `_truncate` does when a truncation is set.
   */
  lemma DummyTracesSpec(colorColumn: Option<Scatter.Series>, symbolColumn: Option<Scatter.Series>, maps: Maps,
                        colorType: ColorType, truncation: Option<int>, dimensionality: int)
    requires Covers(maps, colorType, colorColumn, symbolColumn)
    ensures var r := DummyTraces(colorColumn, symbolColumn, maps, colorType, truncation, dimensionality);
      var pc := LegendClasses(colorColumn, symbolColumn, colorType);
      && r.Ok?
      && |r.value| == |pc|
      && forall k :: 0 <= k < |pc| ==> TraceOf(r.value[k], pc[k], maps, colorType, truncation, dimensionality)
  {
    var pc := LegendClasses(colorColumn, symbolColumn, colorType);
    var sc := SymbolClasses(symbolColumn);
    var fs, ss := Firsts(pc), Seconds(pc);
    if colorType == Continuous {
      ContinuousPairs(colorColumn, symbolColumn);
    }
    forall k | 0 <= k < |pc|
      ensures fs[k].Some? && maps.colormap.Some? ==>
        Dicts.Get(maps.colormap.value, fs[k].value).Some? && Dicts.Get(maps.borderColormap.value, fs[k].value).Some?
      ensures ss[k].Some? ==> Dicts.Get(maps.symbolMap, ss[k].value).Some?
    {
      PairClasses(colorColumn, symbolColumn, colorType, k);
    }
    DummyColorsSpec(fs, sc, maps.colormap, colorType);
    DummyColorsSpec(fs, sc, maps.borderColormap, colorType);
    DummySymbolsSpec(ss, maps.symbolMap);
    var colors := DummyColors(fs, sc, maps.colormap, colorType);
    var borders := DummyColors(fs, sc, maps.borderColormap, colorType);
    var symbols := DummySymbols(ss, Some(maps.symbolMap));
    assert colors.Ok? && borders.Ok? && symbols.Ok?;
    var names := TraceNames(pc);
    var shown := if truncation.Some? then TruncateAsWritten(names, truncation.value) else names;
    assert DummyTraces(colorColumn, symbolColumn, maps, colorType, truncation, dimensionality)
      == Ok(Zip4(shown, colors.value, borders.value, symbols.value, TraceType(dimensionality)));
  }

  // ---------------------------------------------------------------
  // Colour bar and hover
  // ---------------------------------------------------------------

  /** `{"title": {"text": title, "side": "top"}}`. */
  datatype Colorbar = Colorbar(titleText: Option<string>, titleSide: string)

  /** `_determine_colorbar`: a colour bar titled on top, only for continuous colour. */
  function DetermineColorbar(title: Option<string>, colorType: ColorType): (r: Option<Colorbar>)
    ensures r.Some? <==> colorType == Continuous
    ensures r.Some? ==> r.value.titleText == title && r.value.titleSide == "top"
  {
    if colorType == Continuous then Some(Colorbar(title, "top")) else None
  }

  /** The hover line of column `i`: its name in bold, then the `i`-th custom data value. */
  function HoverLine(i: nat, name: string): string {
    "<b>" + name + "</b>: %{customdata[" + PyStrings.IntToString(i) + "]}"
  }

  function HoverLines(names: seq<string>): (r: seq<string>)
    ensures |r| == |names| && forall i :: 0 <= i < |names| ==> r[i] == HoverLine(i, names[i])
  {
    seq(|names|, i requires 0 <= i < |names| => HoverLine(i, names[i]))
  }

  /**
   * `_get_hover_dict`: disabled hover skips hovering with an empty
   * template; otherwise no hover columns give an empty dict, and hover
   * columns give a template of their lines joined by `<br>`.
   */
  function HoverDict(disableHover: bool, hoverDataColNames: Option<seq<string>>): (r: Dicts.Dict<string, string>)
  {
    if disableHover then [("hoverinfo", "skip"), ("hovertemplate", " <extra></extra>")]
    else if hoverDataColNames.None? then []
    else [("hovertemplate", PyStrings.Join(HoverLines(hoverDataColNames.value), "<br>"))]
  }

  /**
   * Disabling hover wins over any hover columns; without columns there is
   * no template; with columns, adding one more column appends `<br>` and
   * its line, numbered after the others.
   */
  lemma HoverDictSpec(disableHover: bool, names: Option<seq<string>>, extra: string)
    ensures disableHover ==> Dicts.Get(HoverDict(disableHover, names), "hoverinfo") == Some("skip")
    ensures !disableHover ==> Dicts.Get(HoverDict(disableHover, names), "hoverinfo").None?
    ensures !disableHover ==> (Dicts.Get(HoverDict(disableHover, names), "hovertemplate").Some? <==> names.Some?)
    ensures !disableHover && names.Some? && |names.value| > 0 ==>
      Dicts.Get(HoverDict(false, Some(names.value + [extra])), "hovertemplate").value ==
      Dicts.Get(HoverDict(false, names), "hovertemplate").value + "<br>" + HoverLine(|names.value|, extra)
  {
    if !disableHover && names.Some? && |names.value| > 0 {
      var ls := HoverLines(names.value);
      assert HoverLines(names.value + [extra]) == ls + [HoverLine(|names.value|, extra)];
      JoinSnoc(ls, HoverLine(|names.value|, extra), "<br>");
    }
  }

  lemma {:induction false} JoinSnoc(ps: seq<string>, x: string, sep: string)
    requires |ps| >= 1
    ensures PyStrings.Join(ps + [x], sep) == PyStrings.Join(ps, sep) + sep + x
    decreases |ps|
  {
    if |ps| > 1 {
      assert (ps + [x])[1..] == ps[1..] + [x];
      JoinSnoc(ps[1..], x, sep);
    } else {
      assert (ps + [x])[1..] == [x];
    }
  }
}
