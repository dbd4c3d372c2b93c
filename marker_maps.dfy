/**
 * Marker maps of a scatter plot: the colour of each colour class, a darker
 * border colour for each, the symbol of each symbol class, and the
 * continuous colour scale. Generated entries come first, the caller's
 * entries override them, and the filtered name always gets light grey
 * and a circle.
 */
module MarkerMaps {
  import opened Wrappers
  import Seqs
  import Dicts
  import Colors
  import PyStrings
  import opened Symbols
  import Scatter

  /** The colour type of the markers. */
  datatype ColorType = Discrete | Continuous

  /** The colour of the filtered name. */
  const FilteredColor: string := "#D3D3D3"

  /** The symbol of the filtered name: circle, as a code in 2D and by name otherwise. */
  function FilteredSymbol(dimensionality: int): Symbol {
    if dimensionality == 2 then Code(0) else Named("circle")
  }

  /** `series.unique().tolist()`: the distinct values in order of first appearance, none without a column. */
  function Unique(column: Option<Scatter.Series>): seq<string> {
    if column.Some? then Seqs.Distinct(column.value.values) else []
  }

  /** The entry a caller's dict gives a key, if there is a dict and it has the key. */
  function Override<V>(extra: Option<Dicts.Dict<string, V>>, k: string): Option<V> {
    if extra.Some? then Dicts.Get(extra.value, k) else None
  }

  /** A caller's dict is a Python dict: its keys are distinct. */
  predicate IsDict<V>(extra: Option<Dicts.Dict<string, V>>) {
    extra.Some? ==> Seqs.NoDup(Dicts.Keys(extra.value))
  }

  /**
   * What a key reads after the caller's dict and the filtered name are
   * written over a generated map: the filtered value for the filtered
   * name, else the caller's entry, else the generated one.
   */
  function Layered<V>(generated: Option<V>, extra: Option<Dicts.Dict<string, V>>, filteredName: Option<string>,
                      filteredValue: V, k: string): Option<V>
  {
    if filteredName == Some(k) then Some(filteredValue)
    else if Override(extra, k).Some? then Override(extra, k)
    else generated
  }

  /** The generated entry of a class: the value of its place among the classes, cycling through `vs`. */
  function Generated<V>(classes: seq<string>, vs: seq<V>, k: string): Option<V>
    requires |vs| > 0
  {
    if k in classes then Some(vs[Seqs.IndexOf(classes, k) % |vs|]) else None
  }

  /**
   * The colour a key should get: light grey for the filtered name, else
   * the caller's colour, else for a value of the colour column the T10
   * colour of its place among the distinct values, cycling every ten.
   */
  function ColorOf(additional: Option<Dicts.Dict<string, string>>, colorColumn: Option<Scatter.Series>,
                   filteredName: Option<string>, k: string): Option<string>
  {
    Layered(Generated(Unique(colorColumn), Colors.T10, k), additional, filteredName, FilteredColor, k)
  }

  /**
   * The symbol a key should get: a circle for the filtered name, else the
   * caller's symbol, else for a value of the symbol column the symbol of
   * its place among the distinct values, cycling every eight.
   */
  function SymbolOf(additional: Option<Dicts.Dict<string, Symbol>>, symbolColumn: Option<Scatter.Series>,
                    filteredName: Option<string>, dimensionality: int, k: string): Option<Symbol>
  {
    Layered(Generated(Unique(symbolColumn), SymbolsFor(dimensionality), k), additional, filteredName,
            FilteredSymbol(dimensionality), k)
  }

  /** `m |= extra` when there is a dict, then `m[filteredName] = filteredValue` when there is a name. */
  function Overlay<V>(m: Dicts.Dict<string, V>, extra: Option<Dicts.Dict<string, V>>, filteredName: Option<string>,
                      filteredValue: V): Dicts.Dict<string, V>
  {
    var u := if extra.Some? then Dicts.Union(m, extra.value) else m;
    if filteredName.Some? then Dicts.Set(u, filteredName.value, filteredValue) else u
  }

  /** After the overlay a key reads as `Layered` says. */
  lemma OverlayGet<V>(m: Dicts.Dict<string, V>, extra: Option<Dicts.Dict<string, V>>, filteredName: Option<string>,
                      filteredValue: V, k: string)
    requires IsDict(extra)
    ensures Dicts.Get(Overlay(m, extra, filteredName, filteredValue), k) ==
      Layered(Dicts.Get(m, k), extra, filteredName, filteredValue, k)
  {
    var u := if extra.Some? then Dicts.Union(m, extra.value) else m;
    if extra.Some? {
      Dicts.UnionGet(m, extra.value, k);
    }
    if filteredName.Some? {
      Dicts.SetGet(u, filteredName.value, filteredValue);
    }
  }

  /** The overlay keeps the keys distinct. */
  lemma OverlayKeys<V>(m: Dicts.Dict<string, V>, extra: Option<Dicts.Dict<string, V>>, filteredName: Option<string>,
                       filteredValue: V)
    requires Seqs.NoDup(Dicts.Keys(m))
    ensures Seqs.NoDup(Dicts.Keys(Overlay(m, extra, filteredName, filteredValue)))
  {
    var u := if extra.Some? then Dicts.Union(m, extra.value) else m;
    if extra.Some? {
      Dicts.SetAllKeys(m, extra.value);
    }
    if filteredName.Some? {
      Dicts.KeysAfterSet(u, filteredName.value, filteredValue);
    }
  }

  /** A map cycled over distinct classes gives each class the entry of its place, and has distinct keys. */
  lemma CycledOverDistinct<V>(classes: seq<string>, vs: seq<V>)
    requires |vs| > 0 && Seqs.NoDup(classes)
    ensures forall k :: Dicts.Get(Dicts.FromEntries(Dicts.ZipCycle(classes, vs)), k) == Generated(classes, vs, k)
    ensures Seqs.NoDup(Dicts.Keys(Dicts.FromEntries(Dicts.ZipCycle(classes, vs))))
  {
    Dicts.ZipCycleKeys(classes, vs);
    forall k ensures Dicts.Get(Dicts.FromEntries(Dicts.ZipCycle(classes, vs)), k) == Generated(classes, vs, k) {
      Dicts.ZipCycleGet(classes, vs, k);
      if k in classes {
        Dicts.LastIndexNoDup(classes, k);
      }
    }
  }

  /**
   * `_get_marker_colormap`: the T10 colormap of the colour column's
   * distinct values (empty without a column), then the caller's colours
   * written over it, then light grey for the filtered name.
   */
  method GetMarkerColormap(additional: Option<Dicts.Dict<string, string>>, colorColumn: Option<Scatter.Series>,
                           filteredName: Option<string>) returns (colormap: Dicts.Dict<string, string>)
    requires IsDict(additional)
    ensures forall k :: Dicts.Get(colormap, k) == ColorOf(additional, colorColumn, filteredName, k)
    ensures Seqs.NoDup(Dicts.Keys(colormap))
  {
    var classes := Unique(colorColumn);
    if colorColumn.Some? {
      var generated := Colors.DiscreteHexColormap(classes, Colors.T10Style);
      colormap := generated.value;
    } else {
      colormap := [];
    }
    ghost var base := colormap;
    CycledOverDistinct(classes, Colors.T10);
    if additional.Some? {
      colormap := Dicts.Union(colormap, additional.value);
    }
    if filteredName.Some? {
      colormap := Dicts.Set(colormap, filteredName.value, FilteredColor);
    }
    assert colormap == Overlay(base, additional, filteredName, FilteredColor);
    forall k ensures Dicts.Get(colormap, k) == Layered(Dicts.Get(base, k), additional, filteredName, FilteredColor, k) {
      OverlayGet(base, additional, filteredName, FilteredColor, k);
    }
    OverlayKeys(base, additional, filteredName, FilteredColor);
  }

  /**
   * `_get_symbol_map`: the symbol map of the symbol column's distinct
   * values (empty without a column), then the caller's symbols written
   * over it, then a circle for the filtered name.
   */
  method GetSymbolMap(additional: Option<Dicts.Dict<string, Symbol>>, symbolColumn: Option<Scatter.Series>,
                      filteredName: Option<string>, dimensionality: int) returns (symbolMap: Dicts.Dict<string, Symbol>)
    requires IsDict(additional)
    ensures forall k :: Dicts.Get(symbolMap, k) == SymbolOf(additional, symbolColumn, filteredName, dimensionality, k)
  {
    var classes := Unique(symbolColumn);
    if symbolColumn.Some? {
      symbolMap := GenSymbolMap(classes, dimensionality);
    } else {
      symbolMap := [];
    }
    ghost var base := symbolMap;
    CycledOverDistinct(classes, SymbolsFor(dimensionality));
    if additional.Some? {
      symbolMap := Dicts.Union(symbolMap, additional.value);
    }
    if filteredName.Some? {
      symbolMap := Dicts.Set(symbolMap, filteredName.value, FilteredSymbol(dimensionality));
    }
    assert symbolMap == Overlay(base, additional, filteredName, FilteredSymbol(dimensionality));
    forall k ensures Dicts.Get(symbolMap, k) == Layered(Dicts.Get(base, k), additional, filteredName, FilteredSymbol(dimensionality), k) {
      OverlayGet(base, additional, filteredName, FilteredSymbol(dimensionality), k);
    }
  }

  /**
   * `darken_hex_color`: ValueError unless `hex_to_rgb` reads the colour
   * (its own check repeats the one in front of it); otherwise the colour
   * with its lightness and saturation changed (`shade`, the floating-point
   * HLS step), written back as `#rrggbb`.
   */
  function DarkenHexColor(color: string, shade: Colors.Rgb -> Colors.Rgb): Result<string>
  {
    match Colors.IsValidHexString(color)
    case Err(e) => Err(e)
    case Ok(valid) =>
      if !valid then Err(ValueError)
      else match Colors.HexToRgb(color)
        case Err(e) => Err(e)
        case Ok(c) => Ok(Colors.RgbToHex(shade(c)))
  }

  /** A colour is darkened exactly when `hex_to_rgb` reads it, and the darkened colour is the read one shaded. */
  lemma DarkenHexColorSpec(color: string, shade: Colors.Rgb -> Colors.Rgb)
    ensures DarkenHexColor(color, shade).Ok? <==> Colors.ReadsAsColor(color)
    ensures DarkenHexColor(color, shade).Err? ==> DarkenHexColor(color, shade).error == ValueError
    ensures DarkenHexColor(color, shade).Ok? ==>
      DarkenHexColor(color, shade).value == Colors.RgbToHex(shade(Colors.HexToRgb(color).value))
  {
    Colors.IsValidHexStringSpec(color);
    Colors.HexToRgbInRange(color);
  }

  /** Every colour of the map can be darkened. */
  predicate AllValidHex(colormap: Dicts.Dict<string, string>) {
    forall i :: 0 <= i < |colormap| ==> Colors.ReadsAsColor(colormap[i].1)
  }

  /** The entries with their colours darkened, in the same order. */
  function DarkenedEntries(colormap: Dicts.Dict<string, string>, shade: Colors.Rgb -> Colors.Rgb): (r: Dicts.Dict<string, string>)
    requires AllValidHex(colormap)
    ensures |r| == |colormap|
    ensures forall i :: 0 <= i < |r| ==> r[i] == (colormap[i].0, DarkenHexColor(colormap[i].1, shade).value)
  {
    seq(|colormap|, i requires 0 <= i < |colormap| =>
      DarkenHexColorSpec(colormap[i].1, shade);
      (colormap[i].0, DarkenHexColor(colormap[i].1, shade).value))
  }

  /** `_get_marker_border_colormap`: each class with its colour darkened; the first colour that cannot be read raises ValueError. */
  function BorderColormap(colormap: Dicts.Dict<string, string>, shade: Colors.Rgb -> Colors.Rgb): Result<Dicts.Dict<string, string>>
  {
    if !AllValidHex(colormap) then Err(ValueError)
    else Ok(DarkenedEntries(colormap, shade))
  }

  /**
   * The border colormap has the colormap's keys in the same order, and
   * each class's border colour is its colour darkened; it fails exactly
   * when `hex_to_rgb` cannot read some colour.
   */
  lemma BorderColormapSpec(colormap: Dicts.Dict<string, string>, shade: Colors.Rgb -> Colors.Rgb)
    ensures BorderColormap(colormap, shade).Err? <==> exists i :: 0 <= i < |colormap| && !Colors.ReadsAsColor(colormap[i].1)
    ensures BorderColormap(colormap, shade).Ok? ==>
      var b := BorderColormap(colormap, shade).value;
      && Dicts.Keys(b) == Dicts.Keys(colormap)
      && forall k :: Dicts.Get(b, k).Some? ==>
           (Dicts.Get(colormap, k).Some? && Ok(Dicts.Get(b, k).value) == DarkenHexColor(Dicts.Get(colormap, k).value, shade))
  {
    if AllValidHex(colormap) {
      var b := DarkenedEntries(colormap, shade);
      forall k | Dicts.Get(b, k).Some?
        ensures Dicts.Get(colormap, k).Some? && Ok(Dicts.Get(b, k).value) == DarkenHexColor(Dicts.Get(colormap, k).value, shade)
      {
        DarkenedGet(colormap, shade, k);
      }
    }
  }

  lemma {:induction false} DarkenedGet(colormap: Dicts.Dict<string, string>, shade: Colors.Rgb -> Colors.Rgb, k: string)
    requires AllValidHex(colormap)
    ensures Dicts.Get(DarkenedEntries(colormap, shade), k).Some? <==> Dicts.Get(colormap, k).Some?
    ensures Dicts.Get(colormap, k).Some? ==>
      Ok(Dicts.Get(DarkenedEntries(colormap, shade), k).value) == DarkenHexColor(Dicts.Get(colormap, k).value, shade)
    decreases |colormap|
  {
    if |colormap| > 0 {
      var d := DarkenedEntries(colormap, shade);
      assert d[0] == (colormap[0].0, DarkenHexColor(colormap[0].1, shade).value);
      if colormap[0].0 != k {
        var tail := colormap[1..];
        assert AllValidHex(tail) by {
          forall i | 0 <= i < |tail| ensures Colors.ReadsAsColor(tail[i].1) {
            assert tail[i] == colormap[i + 1];
          }
        }
        assert d[1..] == DarkenedEntries(tail, shade);
        DarkenedGet(tail, shade, k);
      }
    }
  }

  /** The names of `CONTINUOUS_COLORSCALES`. */
  const ColorscaleNames: seq<string> := ["bluered", "redblue", "blue_asc", "blue_desc", "red_asc", "red_desc", "thermal"]

  /**
   * `_get_colorscale`: None without a name, else the named plotly scale
   * (`palette`, the plotly colour lists); an unknown name raises KeyError.
   */
  function Colorscale(name: Option<string>, palette: string -> seq<string>): Result<Option<seq<string>>>
  {
    if name.None? then Ok(None)
    else if name.value in ColorscaleNames then Ok(Some(palette(name.value)))
    else Err(KeyError)
  }

  /** A caller's colour that cannot be read and that the filtered name does not replace. */
  ghost predicate BadColor(additional: Option<Dicts.Dict<string, string>>, filteredName: Option<string>) {
    exists k :: filteredName != Some(k) && Override(additional, k).Some? && !Colors.ReadsAsColor(Override(additional, k).value)
  }

  /** The T10 colours and light grey are hex colours. */
  lemma PaletteValid()
    ensures forall i :: 0 <= i < |Colors.T10| ==> Colors.IsValidHex(Colors.T10[i])
    ensures Colors.IsValidHex(FilteredColor)
  {
  }

  /**
   * Some key of the colormap holds a colour that cannot be read exactly
   * when the caller gave such a colour for a key other than the filtered
   * name: the generated colours and light grey are all hex colours.
   */
  lemma BadColorSpec(additional: Option<Dicts.Dict<string, string>>, colorColumn: Option<Scatter.Series>,
                     filteredName: Option<string>)
    ensures (exists k :: ColorOf(additional, colorColumn, filteredName, k).Some? &&
               !Colors.ReadsAsColor(ColorOf(additional, colorColumn, filteredName, k).value))
            <==> BadColor(additional, filteredName)
  {
    PaletteValid();
    forall s | Colors.IsValidHex(s) ensures Colors.ReadsAsColor(s) {
      Colors.HexToRgbInRange(s);
    }
    if BadColor(additional, filteredName) {
      var k :| filteredName != Some(k) && Override(additional, k).Some? && !Colors.ReadsAsColor(Override(additional, k).value);
      assert ColorOf(additional, colorColumn, filteredName, k) == Override(additional, k);
    }
  }

  /** The marker maps of a plot (`MarkerMaps`). */
  datatype Maps = Maps(
    colormap: Option<Dicts.Dict<string, string>>,
    borderColormap: Option<Dicts.Dict<string, string>>,
    symbolMap: Dicts.Dict<string, Symbol>,
    colorscale: Option<seq<string>>)

  /**
   * `MarkerMaps.from_parameters`: the colormap only for discrete colour,
   * the border colormap only beside a colormap, then the symbol map and
   * the colour scale. It fails with ValueError when a colour of the
   * colormap cannot be darkened, else with KeyError on an unknown scale
   * name.
   */
  method FromParameters(colorType: ColorType, markerColormap: Option<Dicts.Dict<string, string>>,
                        markerSymbolMap: Option<Dicts.Dict<string, Symbol>>, colorscaleName: Option<string>,
                        colorColumn: Option<Scatter.Series>, symbolColumn: Option<Scatter.Series>,
                        filteredName: Option<string>, dimensionality: int,
                        shade: Colors.Rgb -> Colors.Rgb, palette: string -> seq<string>) returns (r: Result<Maps>)
    requires IsDict(markerColormap) && IsDict(markerSymbolMap)
    ensures r.Err? <==>
      (colorType == Discrete && BadColor(markerColormap, filteredName)) || Colorscale(colorscaleName, palette).Err?
    ensures r.Err? ==> r.error == if colorType == Discrete && BadColor(markerColormap, filteredName) then ValueError else KeyError
    ensures r.Ok? ==>
      var m := r.value;
      && (m.colormap.Some? <==> colorType == Discrete)
      && (m.borderColormap.Some? <==> m.colormap.Some?)
      && (m.colormap.Some? ==>
            && (forall k :: Dicts.Get(m.colormap.value, k) == ColorOf(markerColormap, colorColumn, filteredName, k))
            && Dicts.Keys(m.borderColormap.value) == Dicts.Keys(m.colormap.value))
      && (forall k :: Dicts.Get(m.symbolMap, k) == SymbolOf(markerSymbolMap, symbolColumn, filteredName, dimensionality, k))
      && Ok(m.colorscale) == Colorscale(colorscaleName, palette)
  {
    var colormap: Option<Dicts.Dict<string, string>> := None;
    var border: Option<Dicts.Dict<string, string>> := None;
    if colorType == Discrete {
      var c := GetMarkerColormap(markerColormap, colorColumn, filteredName);
      BorderOfMarkerColormap(c, markerColormap, colorColumn, filteredName, shade);
      var b := BorderColormap(c, shade);
      if b.Err? {
        return Err(b.error);
      }
      colormap, border := Some(c), Some(b.value);
    }
    var symbolMap := GetSymbolMap(markerSymbolMap, symbolColumn, filteredName, dimensionality);
    var colorscale := Colorscale(colorscaleName, palette);
    if colorscale.Err? {
      return Err(colorscale.error);
    }
    r := Ok(Maps(colormap, border, symbolMap, colorscale.value));
  }

  /** The border colormap of a marker colormap fails exactly on a bad caller's colour, and keeps the keys. */
  lemma BorderOfMarkerColormap(c: Dicts.Dict<string, string>, additional: Option<Dicts.Dict<string, string>>,
                               colorColumn: Option<Scatter.Series>, filteredName: Option<string>,
                               shade: Colors.Rgb -> Colors.Rgb)
    requires Seqs.NoDup(Dicts.Keys(c))
    requires forall k :: Dicts.Get(c, k) == ColorOf(additional, colorColumn, filteredName, k)
    ensures BorderColormap(c, shade).Err? <==> BadColor(additional, filteredName)
    ensures BorderColormap(c, shade).Err? ==> BorderColormap(c, shade).error == ValueError
    ensures BorderColormap(c, shade).Ok? ==> Dicts.Keys(BorderColormap(c, shade).value) == Dicts.Keys(c)
  {
    var colorOf := (k: string) => ColorOf(additional, colorColumn, filteredName, k);
    BorderColormapSpec(c, shade);
    AllValidHexByKey(c);
    AllByKeyAsGiven(c, colorOf, Colors.ReadsAsColor);
    BadColorSpec(additional, colorColumn, filteredName);
  }

  /** When every key reads `colorOf`'s value, `P` holds of every value present exactly when `colorOf` gives no value failing `P`. */
  lemma AllByKeyAsGiven(c: Dicts.Dict<string, string>, colorOf: string -> Option<string>, P: string -> bool)
    requires forall k :: Dicts.Get(c, k) == colorOf(k)
    ensures (forall k :: Dicts.Get(c, k).Some? ==> P(Dicts.Get(c, k).value)) <==>
            !exists k :: colorOf(k).Some? && !P(colorOf(k).value)
  {
    if exists k :: colorOf(k).Some? && !P(colorOf(k).value) {
      var k :| colorOf(k).Some? && !P(colorOf(k).value);
      assert Dicts.Get(c, k) == colorOf(k);
      assert Dicts.Get(c, k).Some? && !P(Dicts.Get(c, k).value);
    } else {
      forall k | Dicts.Get(c, k).Some? ensures P(Dicts.Get(c, k).value) {
        assert Dicts.Get(c, k) == colorOf(k);
      }
    }
  }

  /** With distinct keys, every colour of a map can be read exactly when every key's colour can. */
  lemma AllValidHexByKey(c: Dicts.Dict<string, string>)
    requires Seqs.NoDup(Dicts.Keys(c))
    ensures AllValidHex(c) <==> forall k :: Dicts.Get(c, k).Some? ==> Colors.ReadsAsColor(Dicts.Get(c, k).value)
  {
    if !AllValidHex(c) {
      var i :| 0 <= i < |c| && !Colors.ReadsAsColor(c[i].1);
      Dicts.GetAt(c, i);
    }
  }
}
