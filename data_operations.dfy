/**
 * The record logic of the data-operation callbacks of the lipidome grid:
 * the guards in front of grouping and pairwise changes, setting one
 * colour or a colour scale on the selected rows, renaming a lipidome
 * across the lipidome, difference and log2fc grids, deleting the selected
 * lipidomes and undoing the last deletion. Each callback returns its
 * output slots; a slot left alone is `no_update`.
 */
module DataOperations {
  import opened Wrappers
  import Dicts
  import Seqs
  import opened Records
  import opened PyStrings
  import Colors
  import opened FrontEndData

  /** The column names the callbacks read and write. */
  const LipidomeCol: string := "LIPIDOME"
  const ColorCol: string := "COLOR"
  const RowIdCol: string := "ROW_ID"
  const FromCol: string := "FROM"
  const ToCol: string := "TO"

  const SelectTwoText: string := "Please select at least two lipidome rows."
  const ProvideNameText: string := "Please provide a grouping name."
  const SelectOneUniqueText: string := "Please select exactly one lipidome row and provide a unique name."
  const SelectAtLeastOneText: string := "Please select at least one lipidome row."
  const NothingToUndoText: string := "No deleted rows to undo."

  /** `not rows` for a list of records that may be None. */
  predicate NoRows(rows: Option<seq<Record>>) {
    rows.None? || |rows.value| == 0
  }

  /** `not s` for a text that may be None. */
  predicate NoText(s: Option<string>) {
    s.None? || |s.value| == 0
  }

  /** The value a record holds in the lipidome column, if any. */
  function NameOf(r: Record): Option<Value> {
    Dicts.Get(r, LipidomeCol)
  }

  /**
   * `name in [record[LIPIDOME] for record in records]`: KeyError when a
   * record has no lipidome column, otherwise whether some record carries
   * the name.
   */
  function NameTaken(records: seq<Record>, name: string): (r: Result<bool>)
    ensures r.Err? <==> exists i :: 0 <= i < |records| && LipidomeCol !in Dicts.Keys(records[i])
    ensures r.Err? ==> r.error == KeyError
    ensures r.Ok? ==> (r.value <==> exists i :: 0 <= i < |records| && NameOf(records[i]) == Some(JStr(name)))
  {
    match Column(records, LipidomeCol)
    case Err(e) => Err(e)
    case Ok(names) =>
      assert forall i :: 0 <= i < |records| ==> NameOf(records[i]) == Some(names[i]);
      Ok(JStr(name) in names)
  }

  // ---------------------------------------------------------------
  // Grouping and pairwise changes: the guards and the outputs.
  // ---------------------------------------------------------------

  /** The grouping name message of the third guard. */
  function NamePresentText(name: string): string {
    "Name '" + name + "' already present in the dataset."
  }

  /**
   * The guards of the grouping callback, in order: at least two selected
   * rows, a non-empty name, a name no lipidome has. A message to show, or
   * None to go ahead.
   */
  function GroupingGuard(selected: Option<seq<Record>>, name: Option<string>, records: seq<Record>): Result<Option<string>>
  {
    if selected.None? || |selected.value| < 2 then Ok(Some(SelectTwoText))
    else if NoText(name) then Ok(Some(ProvideNameText))
    else
      match NameTaken(records, name.value)
      case Err(e) => Err(e)
      case Ok(taken) => if taken then Ok(Some(NamePresentText(name.value))) else Ok(None)
  }

  /** The five outputs of the grouping callback: the lipidome rows, the grid tab, the row to scroll to and the problem modal. */
  datatype GroupingOutput = GroupingOutput(
    lipidomes: Update<seq<Record>>, tab: Update<string>, scrollTo: Update<int>,
    modalOpen: bool, message: Update<string>)

  /**
   * `add_grouping_callback`; `grouped` is the lipidome records the dataset
   * step hands back once the guards pass (that step is modelled on the
   * dataset's tables, not on records).
   */
  function GroupingCallback(selected: Option<seq<Record>>, name: Option<string>, records: seq<Record>,
                            grouped: seq<Record>): Result<GroupingOutput>
  {
    match GroupingGuard(selected, name, records)
    case Err(e) => Err(e)
    case Ok(msg) =>
      if msg.Some? then Ok(GroupingOutput(NoUpdate, NoUpdate, NoUpdate, true, Update(msg.value)))
      else Ok(GroupingOutput(Update(grouped), Update("lipidome"), Update(|grouped| - 1), false, NoUpdate))
  }

  /**
   * Grouping is refused, with the modal open and no grid changed, exactly
   * when fewer than two rows are selected, the name is missing or empty,
   * or a lipidome already has the name; otherwise the grid shows the
   * returned records, scrolled to the last one, the new group.
   */
  lemma GroupingCallbackSpec(selected: Option<seq<Record>>, name: Option<string>, records: seq<Record>,
                             grouped: seq<Record>)
    requires forall i :: 0 <= i < |records| ==> LipidomeCol in Dicts.Keys(records[i])
    ensures var r := GroupingCallback(selected, name, records, grouped);
      && r.Ok?
      && (r.value.modalOpen <==>
            || selected.None? || |selected.value| < 2 || NoText(name)
            || exists i :: 0 <= i < |records| && NameOf(records[i]) == Some(JStr(name.value)))
      && (r.value.modalOpen ==>
            && r.value.lipidomes.NoUpdate? && r.value.tab.NoUpdate? && r.value.scrollTo.NoUpdate?
            && r.value.message.Update?)
      && (selected.None? || |selected.value| < 2 ==> r.value.message == Update(SelectTwoText))
      && (!r.value.modalOpen ==>
            && r.value.lipidomes == Update(grouped) && r.value.tab == Update("lipidome")
            && r.value.scrollTo == Update(|grouped| - 1) && r.value.message.NoUpdate?)
  {
  }

  /** A missing lipidome column in a record fails the name check with KeyError once the first two guards pass. */
  lemma GroupingCallbackKeyError(selected: Option<seq<Record>>, name: Option<string>, records: seq<Record>,
                                 grouped: seq<Record>, i: int)
    requires selected.Some? && |selected.value| >= 2 && !NoText(name)
    requires 0 <= i < |records| && LipidomeCol !in Dicts.Keys(records[i])
    ensures GroupingCallback(selected, name, records, grouped) == Err(KeyError)
  {
  }

  /** The eight outputs of the pairwise-change callback. */
  datatype PairwiseOutput = PairwiseOutput(
    differenceRecords: Update<seq<Record>>, differenceDefs: Update<seq<Record>>,
    log2fcRecords: Update<seq<Record>>, log2fcDefs: Update<seq<Record>>,
    gridTab: Update<string>, changeTab: Update<string>, modalOpen: bool, message: Update<string>)

  /**
   * `compute_pairwise_changes`; `changed` is the front-end data the
   * dataset step hands back once the guard passes.
   */
  function PairwiseCallback(selected: Option<seq<Record>>, changeSelection: string,
                            changed: LipidomeFrontEndData): PairwiseOutput
  {
    if selected.None? || |selected.value| < 2 then
      PairwiseOutput(NoUpdate, NoUpdate, NoUpdate, NoUpdate, NoUpdate, NoUpdate, true, Update(SelectTwoText))
    else
      PairwiseOutput(Update(changed.differenceRecords), Update(changed.differenceColGroupsDefs),
                     Update(changed.log2fcRecords), Update(changed.log2fcColGroupsDefs),
                     Update("change"), Update(changeSelection), false, NoUpdate)
  }

  /**
   * Fewer than two selected rows leave all six grid and tab outputs alone
   * and open the modal; otherwise both change grids show the returned
   * records and definitions and the change tab of the selected kind opens.
   */
  lemma PairwiseCallbackSpec(selected: Option<seq<Record>>, changeSelection: string, changed: LipidomeFrontEndData)
    ensures var out := PairwiseCallback(selected, changeSelection, changed);
      && (out.modalOpen <==> selected.None? || |selected.value| < 2)
      && (out.modalOpen ==>
            && out.differenceRecords.NoUpdate? && out.differenceDefs.NoUpdate?
            && out.log2fcRecords.NoUpdate? && out.log2fcDefs.NoUpdate?
            && out.gridTab.NoUpdate? && out.changeTab.NoUpdate? && out.message == Update(SelectTwoText))
      && (!out.modalOpen ==>
            && out.differenceRecords == Update(changed.differenceRecords)
            && out.differenceDefs == Update(changed.differenceColGroupsDefs)
            && out.log2fcRecords == Update(changed.log2fcRecords)
            && out.log2fcDefs == Update(changed.log2fcColGroupsDefs)
            && out.gridTab == Update("change") && out.changeTab == Update(changeSelection)
            && out.message.NoUpdate?)
  {
  }

  // ---------------------------------------------------------------
  // Colours.
  // ---------------------------------------------------------------

  /** `after` is `before` with the colour column set to `color` and every other entry kept. */
  ghost predicate Recolored(before: Record, after: Record, color: string) {
    && Dicts.Get(after, ColorCol) == Some(JStr(color))
    && (forall k :: k != ColorCol ==> Dicts.Get(after, k) == Dicts.Get(before, k))
    && Dicts.Keys(after) == if ColorCol in Dicts.Keys(before) then Dicts.Keys(before) else Dicts.Keys(before) + [ColorCol]
  }

  /** `row[COLOR] = color`. */
  lemma SetColor(row: Record, color: string)
    ensures Recolored(row, Dicts.Set(row, ColorCol, JStr(color)), color)
  {
    Dicts.SetSpec(row, ColorCol, JStr(color));
  }

  /**
   * `set_lipidome_color`: with no selection nothing is updated; otherwise
   * the row transaction updates the selected rows, each with the picked
   * colour and nothing else changed.
   */
  method SetLipidomeColor(color: string, selected: Option<seq<Record>>) returns (r: Update<seq<Record>>)
    ensures r.NoUpdate? <==> NoRows(selected)
    ensures r.Update? ==>
      && |r.value| == |selected.value|
      && forall i :: 0 <= i < |r.value| ==> Recolored(selected.value[i], r.value[i], color)
  {
    if NoRows(selected) {
      return NoUpdate;
    }
    var rows := selected.value;
    for i := 0 to |rows|
      invariant |rows| == |selected.value|
      invariant forall k :: 0 <= k < i ==> Recolored(selected.value[k], rows[k], color)
      invariant forall k :: i <= k < |rows| ==> rows[k] == selected.value[k]
    {
      SetColor(rows[i], color);
      rows := rows[i := Dicts.Set(rows[i], ColorCol, JStr(color))];
    }
    return Update(rows);
  }

  /** A palette colour in hex: kept when it starts with "#", otherwise read as "rgb(r, g, b)". */
  function ToHex(color: string): Result<string> {
    if StartsWith(color, "#") then Ok(color) else Colors.RgbStrToHex(color)
  }

  /** The palette in hex, colour by colour; the first colour that does not read raises its error. */
  function PaletteHex(palette: seq<string>): Result<seq<string>>
  {
    if |palette| == 0 then Ok([])
    else
      match ToHex(palette[0])
      case Err(e) => Err(e)
      case Ok(c) =>
        match PaletteHex(palette[1..])
        case Err(e) => Err(e)
        case Ok(rest) => Ok([c] + rest)
  }

  /**
   * The hex palette fails exactly when some colour does not read, with
   * the error of the first such colour; otherwise colour i of the result
   * is colour i of the palette in hex.
   */
  lemma {:induction false} PaletteHexSpec(palette: seq<string>)
    ensures var r := PaletteHex(palette);
      && (r.Err? <==> exists i :: 0 <= i < |palette| && ToHex(palette[i]).Err?)
      && (r.Err? ==> exists i :: 0 <= i < |palette| && ToHex(palette[i]) == Err(r.error)
                       && forall j :: 0 <= j < i ==> ToHex(palette[j]).Ok?)
      && (r.Ok? ==> |r.value| == |palette| && forall i :: 0 <= i < |palette| ==> ToHex(palette[i]) == Ok(r.value[i]))
  {
    if |palette| > 0 {
      var tail := palette[1..];
      PaletteHexSpec(tail);
      assert forall i :: 1 <= i < |palette| ==> palette[i] == tail[i - 1];
      var r := PaletteHex(palette);
      if ToHex(palette[0]).Ok? && PaletteHex(tail).Err? {
        var k :| 0 <= k < |tail| && ToHex(tail[k]) == Err(r.error) && forall j :: 0 <= j < k ==> ToHex(tail[j]).Ok?;
        assert ToHex(palette[k + 1]) == Err(r.error);
        assert forall j :: 0 <= j < k + 1 ==> ToHex(palette[j]).Ok? by {
          forall j | 0 <= j < k + 1 ensures ToHex(palette[j]).Ok? {
            if j > 0 { assert palette[j] == tail[j - 1]; }
          }
        }
      }
    }
  }

  /**
   * `change_color_scale`: with no selection or no scale name nothing is
   * updated; a scale name Plotly does not know raises AttributeError (the
   * palette is looked up outside, None when absent); otherwise the i-th
   * selected row gets colour `i mod n` of the n palette colours, and an
   * empty palette changes no row.
   */
  method ChangeColorScale(selected: Option<seq<Record>>, colorscale: Option<string>, palette: Option<seq<string>>)
    returns (r: Result<Update<seq<Record>>>)
    ensures NoRows(selected) || NoText(colorscale) ==> r == Ok(NoUpdate)
    ensures !NoRows(selected) && !NoText(colorscale) && palette.None? ==> r == Err(AttributeError)
    ensures !NoRows(selected) && !NoText(colorscale) && palette.Some? && PaletteHex(palette.value).Err? ==>
      r == Err(PaletteHex(palette.value).error)
    ensures !NoRows(selected) && !NoText(colorscale) && palette.Some? && PaletteHex(palette.value).Ok? ==>
      var colors := PaletteHex(palette.value).value;
      && r.Ok? && r.value.Update? && |r.value.value| == |selected.value|
      && (|colors| == 0 ==> r.value.value == selected.value)
      && (|colors| > 0 ==>
            forall i :: 0 <= i < |selected.value| ==> Recolored(selected.value[i], r.value.value[i], colors[i % |colors|]))
  {
    if NoRows(selected) || NoText(colorscale) {
      return Ok(NoUpdate);
    }
    if palette.None? {
      return Err(AttributeError);
    }
    var hex := PaletteHex(palette.value);
    if hex.Err? {
      return Err(hex.error);
    }
    var colors := hex.value;
    var rows := selected.value;
    var i := 0;
    while i < |rows| && |colors| > 0
      invariant 0 <= i <= |rows| == |selected.value|
      invariant |colors| == 0 ==> i == 0
      invariant forall k :: 0 <= k < i ==> Recolored(selected.value[k], rows[k], colors[k % |colors|])
      invariant forall k :: i <= k < |rows| ==> rows[k] == selected.value[k]
    {
      SetColor(rows[i], colors[i % |colors|]);
      rows := rows[i := Dicts.Set(rows[i], ColorCol, JStr(colors[i % |colors|]))];
      i := i + 1;
    }
    return Ok(Update(rows));
  }

  // ---------------------------------------------------------------
  // Renaming a lipidome.
  // ---------------------------------------------------------------

  /** The message when the new name is already used. */
  function NameUsedText(name: string): string {
    "\"" + name + "\" already present in the dataset."
  }

  /**
   * The guards of the rename callback, in order: exactly one selected row
   * and a non-empty name, then a name no lipidome has. A message to show,
   * or None to go ahead.
   */
  function RenameGuard(newName: Option<string>, selected: Option<seq<Record>>, records: seq<Record>): Result<Option<string>>
  {
    if selected.None? || NoText(newName) || |selected.value| != 1 then Ok(Some(SelectOneUniqueText))
    else
      match NameTaken(records, newName.value)
      case Err(e) => Err(e)
      case Ok(taken) => if taken then Ok(Some(NameUsedText(newName.value))) else Ok(None)
  }

  /**
   * The rename guards let the rename go ahead exactly for one selected
   * row and a non-empty name that no lipidome has.
   */
  lemma RenameGuardSpec(newName: Option<string>, selected: Option<seq<Record>>, records: seq<Record>)
    requires forall i :: 0 <= i < |records| ==> LipidomeCol in Dicts.Keys(records[i])
    ensures var g := RenameGuard(newName, selected, records);
      && g.Ok?
      && (g.value.None? <==>
            && selected.Some? && |selected.value| == 1 && !NoText(newName)
            && forall i :: 0 <= i < |records| ==> NameOf(records[i]) != Some(JStr(newName.value)))
  {
  }

  /**
   * `after` is `before` with every field in `fields` that held `current`
   * now holding the new name, and every other entry kept.
   */
  ghost predicate Renamed(before: Record, after: Record, fields: set<string>, current: Value, newName: string) {
    && Dicts.Keys(after) == Dicts.Keys(before)
    && forall k :: Dicts.Get(after, k) ==
         if k in fields && Dicts.Get(before, k) == Some(current) then Some(JStr(newName)) else Dicts.Get(before, k)
  }

  /**
   * `if record[key] == current: record[key] = new_name`: the record with
   * the key renamed where it held the current name; KeyError when the
   * record has no such key.
   */
  function RenameField(record: Record, key: string, current: Value, newName: string): (r: Result<Record>)
    ensures r.Err? <==> key !in Dicts.Keys(record)
    ensures r.Err? ==> r.error == KeyError
    ensures r.Ok? ==> Renamed(record, r.value, {key}, current, newName)
  {
    match Lookup(record, key)
    case Err(e) => Err(e)
    case Ok(v) =>
      Dicts.SetSpec(record, key, JStr(newName));
      if v == current then Ok(Dicts.Set(record, key, JStr(newName))) else Ok(record)
  }

  /** Renaming `FROM` and then `TO` renames both ends. */
  lemma RenameBothEnds(before: Record, mid: Record, after: Record, current: Value, newName: string)
    requires Renamed(before, mid, {FromCol}, current, newName)
    requires Renamed(mid, after, {ToCol}, current, newName)
    ensures Renamed(before, after, {FromCol, ToCol}, current, newName)
  {
    assert |FromCol| != |ToCol|;
    forall k ensures Dicts.Get(after, k) ==
      if k in {FromCol, ToCol} && Dicts.Get(before, k) == Some(current) then Some(JStr(newName)) else Dicts.Get(before, k)
    {
      assert Dicts.Get(after, k) ==
        if k in {ToCol} && Dicts.Get(mid, k) == Some(current) then Some(JStr(newName)) else Dicts.Get(mid, k);
      assert Dicts.Get(mid, k) ==
        if k in {FromCol} && Dicts.Get(before, k) == Some(current) then Some(JStr(newName)) else Dicts.Get(before, k);
    }
  }

  /** One more renamed record at the end keeps every position renamed. */
  lemma RenamedAppend(before: seq<Record>, out: seq<Record>, x: Record, fields: set<string>, current: Value, newName: string)
    requires |out| < |before|
    requires forall k :: 0 <= k < |out| ==> Renamed(before[k], out[k], fields, current, newName)
    requires Renamed(before[|out|], x, fields, current, newName)
    ensures forall k :: 0 <= k < |out| + 1 ==> Renamed(before[k], (out + [x])[k], fields, current, newName)
  {
    forall k | 0 <= k < |out| + 1 ensures Renamed(before[k], (out + [x])[k], fields, current, newName) {
      if k < |out| { assert (out + [x])[k] == out[k]; }
    }
  }

  /** Every record has the column. */
  predicate HaveKey(records: seq<Record>, key: string) {
    forall i :: 0 <= i < |records| ==> key in Dicts.Keys(records[i])
  }

  /**
   * The lipidome loop of the rename: every record whose lipidome is the
   * current name gets the new one; KeyError when a record has no lipidome
   * column.
   */
  method RenameLipidomes(records: seq<Record>, current: Value, newName: string) returns (r: Result<seq<Record>>)
    ensures r.Err? <==> !HaveKey(records, LipidomeCol)
    ensures r.Err? ==> r.error == KeyError
    ensures r.Ok? ==> |r.value| == |records|
    ensures r.Ok? ==> forall i :: 0 <= i < |records| ==> Renamed(records[i], r.value[i], {LipidomeCol}, current, newName)
  {
    var out: seq<Record> := [];
    for i := 0 to |records|
      invariant |out| == i
      invariant forall k :: 0 <= k < i ==> LipidomeCol in Dicts.Keys(records[k])
      invariant forall k :: 0 <= k < i ==> Renamed(records[k], out[k], {LipidomeCol}, current, newName)
    {
      var renamed := RenameField(records[i], LipidomeCol, current, newName);
      if renamed.Err? {
        return Err(KeyError);
      }
      RenamedAppend(records, out, renamed.value, {LipidomeCol}, current, newName);
      out := out + [renamed.value];
    }
    return Ok(out);
  }

  /**
   * The change-record loop of the rename: `FROM` and then `TO` are
   * replaced where they hold the current name; KeyError when a record
   * lacks either column.
   */
  method RenameChanges(records: seq<Record>, current: Value, newName: string) returns (r: Result<seq<Record>>)
    ensures r.Err? <==> !(HaveKey(records, FromCol) && HaveKey(records, ToCol))
    ensures r.Err? ==> r.error == KeyError
    ensures r.Ok? ==> |r.value| == |records|
    ensures r.Ok? ==> forall i :: 0 <= i < |records| ==> Renamed(records[i], r.value[i], {FromCol, ToCol}, current, newName)
  {
    var out: seq<Record> := [];
    for i := 0 to |records|
      invariant |out| == i
      invariant forall k :: 0 <= k < i ==> FromCol in Dicts.Keys(records[k]) && ToCol in Dicts.Keys(records[k])
      invariant forall k :: 0 <= k < i ==> Renamed(records[k], out[k], {FromCol, ToCol}, current, newName)
    {
      var mid := RenameField(records[i], FromCol, current, newName);
      if mid.Err? {
        return Err(KeyError);
      }
      var renamed := RenameField(mid.value, ToCol, current, newName);
      if renamed.Err? {
        return Err(KeyError);
      }
      RenameBothEnds(records[i], mid.value, renamed.value, current, newName);
      RenamedAppend(records, out, renamed.value, {FromCol, ToCol}, current, newName);
      out := out + [renamed.value];
    }
    return Ok(out);
  }

  /** The five outputs of the rename callback: the three grids and the problem modal. */
  datatype RenameOutput = RenameOutput(
    lipidomes: Update<seq<Record>>, differences: Update<seq<Record>>, log2fcs: Update<seq<Record>>,
    modalOpen: bool, message: Update<string>)

  /**
   * `set_lipidome_name`: after the guards, the selected row's current
   * name is replaced by the new one in every lipidome record and in the
   * `FROM` and `TO` of every difference and log2fc record; no other field
   * changes. A missing column raises KeyError.
   */
  method SetLipidomeName(newName: Option<string>, selected: Option<seq<Record>>,
                         lipidomes: seq<Record>, differences: seq<Record>, log2fcs: seq<Record>)
    returns (r: Result<RenameOutput>)
    ensures var g := RenameGuard(newName, selected, lipidomes);
      && (g.Err? ==> r == Err(g.error))
      && (g.Ok? && g.value.Some? ==> r == Ok(RenameOutput(NoUpdate, NoUpdate, NoUpdate, true, Update(g.value.value))))
    ensures RenameGuard(newName, selected, lipidomes) == Ok(None) ==>
      && (r.Err? <==>
            || LipidomeCol !in Dicts.Keys(selected.value[0])
            || !(HaveKey(differences, FromCol) && HaveKey(differences, ToCol))
            || !(HaveKey(log2fcs, FromCol) && HaveKey(log2fcs, ToCol)))
      && (r.Err? ==> r.error == KeyError)
      && (r.Ok? ==>
            var current := NameOf(selected.value[0]).value;
            && !r.value.modalOpen && r.value.message.NoUpdate?
            && r.value.lipidomes.Update? && r.value.differences.Update? && r.value.log2fcs.Update?
            && |r.value.lipidomes.value| == |lipidomes|
            && |r.value.differences.value| == |differences| && |r.value.log2fcs.value| == |log2fcs|
            && (forall i :: 0 <= i < |lipidomes| ==>
                  Renamed(lipidomes[i], r.value.lipidomes.value[i], {LipidomeCol}, current, newName.value))
            && (forall i :: 0 <= i < |differences| ==>
                  Renamed(differences[i], r.value.differences.value[i], {FromCol, ToCol}, current, newName.value))
            && (forall i :: 0 <= i < |log2fcs| ==>
                  Renamed(log2fcs[i], r.value.log2fcs.value[i], {FromCol, ToCol}, current, newName.value)))
  {
    var guard := RenameGuard(newName, selected, lipidomes);
    if guard.Err? {
      return Err(guard.error);
    }
    if guard.value.Some? {
      return Ok(RenameOutput(NoUpdate, NoUpdate, NoUpdate, true, Update(guard.value.value)));
    }
    var current := Lookup(selected.value[0], LipidomeCol);
    if current.Err? {
      return Err(KeyError);
    }
    var ls := RenameLipidomes(lipidomes, current.value, newName.value);
    if ls.Err? {
      assert false;
      return Err(KeyError);
    }
    var ds := RenameChanges(differences, current.value, newName.value);
    if ds.Err? {
      return Err(KeyError);
    }
    var l2 := RenameChanges(log2fcs, current.value, newName.value);
    if l2.Err? {
      return Err(KeyError);
    }
    return Ok(RenameOutput(Update(ls.value), Update(ds.value), Update(l2.value), false, NoUpdate));
  }

  /**
   * After a rename the guards let through, the new name labels exactly
   * the lipidome records that carried the current name, and the current
   * name labels none (unless it is the new name itself).
   */
  lemma RenameRelabels(before: seq<Record>, after: seq<Record>, current: Value, newName: string)
    requires |after| == |before|
    requires forall i :: 0 <= i < |before| ==> NameOf(before[i]) != Some(JStr(newName))
    requires forall i :: 0 <= i < |before| ==> Renamed(before[i], after[i], {LipidomeCol}, current, newName)
    ensures forall i :: 0 <= i < |after| ==> (NameOf(after[i]) == Some(JStr(newName)) <==> NameOf(before[i]) == Some(current))
    ensures current != JStr(newName) ==> forall i :: 0 <= i < |after| ==> NameOf(after[i]) != Some(current)
  {
    forall i | 0 <= i < |after|
      ensures NameOf(after[i]) == Some(JStr(newName)) <==> NameOf(before[i]) == Some(current)
      ensures current != JStr(newName) ==> NameOf(after[i]) != Some(current)
    {
      assert Dicts.Get(after[i], LipidomeCol) ==
        if Dicts.Get(before[i], LipidomeCol) == Some(current) then Some(JStr(newName)) else Dicts.Get(before[i], LipidomeCol);
    }
  }

  // ---------------------------------------------------------------
  // Deleting the selected lipidomes and undoing it.
  // ---------------------------------------------------------------

  /** The lipidome records whose name was not deleted; KeyError when a record has no lipidome column. */
  function KeepLipidomes(records: seq<Record>, deleted: seq<Value>): (r: Result<seq<Record>>)
    ensures r.Err? <==> !HaveKey(records, LipidomeCol)
    ensures r.Err? ==> r.error == KeyError
    ensures r.Ok? ==> |r.value| <= |records|
    ensures r.Ok? ==> forall x :: x in r.value <==> x in records && NameOf(x).Some? && NameOf(x).value !in deleted
  {
    if |records| == 0 then Ok([])
    else
      var rest := KeepLipidomes(records[1..], deleted);
      assert forall i :: 1 <= i < |records| ==> records[i] == records[1..][i - 1];
      assert records == [records[0]] + records[1..];
      match Lookup(records[0], LipidomeCol)
      case Err(e) => Err(e)
      case Ok(name) =>
        if rest.Err? then Err(rest.error)
        else if name in deleted then Ok(rest.value)
        else Ok([records[0]] + rest.value)
  }

  /**
   * The change records neither of whose ends was deleted. `FROM` is read
   * first and `TO` only when `FROM` was not deleted; KeyError when a read
   * column is missing.
   */
  function KeepChanges(records: seq<Record>, deleted: seq<Value>): (r: Result<seq<Record>>)
    ensures r.Err? <==> exists i :: 0 <= i < |records| && ChangeReadFails(records[i], deleted)
    ensures r.Err? ==> r.error == KeyError
    ensures r.Ok? ==> |r.value| <= |records|
    ensures r.Ok? ==> forall x :: x in r.value <==> x in records && KeptChange(x, deleted)
  {
    if |records| == 0 then Ok([])
    else
      var rest := KeepChanges(records[1..], deleted);
      assert forall i :: 1 <= i < |records| ==> records[i] == records[1..][i - 1];
      assert records == [records[0]] + records[1..];
      match Lookup(records[0], FromCol)
      case Err(e) => Err(e)
      case Ok(from) =>
        if from in deleted then
          if rest.Err? then Err(rest.error) else Ok(rest.value)
        else
          match Lookup(records[0], ToCol)
          case Err(e) => Err(e)
          case Ok(to) =>
            if rest.Err? then Err(rest.error)
            else if to in deleted then Ok(rest.value)
            else Ok([records[0]] + rest.value)
  }

  /** Reading a change record's ends raises: no `FROM`, or a kept `FROM` and no `TO`. */
  predicate ChangeReadFails(x: Record, deleted: seq<Value>) {
    || Dicts.Get(x, FromCol).None?
    || (Dicts.Get(x, FromCol).value !in deleted && Dicts.Get(x, ToCol).None?)
  }

  /** A change record both of whose ends are present and were not deleted. */
  predicate KeptChange(x: Record, deleted: seq<Value>) {
    && Dicts.Get(x, FromCol).Some? && Dicts.Get(x, FromCol).value !in deleted
    && Dicts.Get(x, ToCol).Some? && Dicts.Get(x, ToCol).value !in deleted
  }

  /** `{row["ROW_ID"]: row for row in selected_rows}`: KeyError when a row has no id. */
  function DeletedStore(selected: seq<Record>): (r: Result<Dicts.Dict<Value, Record>>)
  {
    match Column(selected, RowIdCol)
    case Err(e) => Err(e)
    case Ok(ids) => Ok(Dicts.FromEntries(Dicts.Zip(ids, selected)))
  }

  /**
   * The store fails exactly when a selected row has no id; otherwise it
   * holds the distinct row ids in order of first appearance, each mapped
   * to the last selected row carrying it, and nothing else.
   */
  lemma DeletedStoreSpec(selected: seq<Record>)
    ensures var r := DeletedStore(selected);
      && (r.Err? <==> !HaveKey(selected, RowIdCol))
      && (r.Ok? ==>
            var ids := Column(selected, RowIdCol).value;
            && Dicts.Keys(r.value) == Seqs.Distinct(ids)
            && forall k :: Dicts.Get(r.value, k) == if k in ids then Some(selected[Dicts.LastIndex(ids, k)]) else None)
  {
    var c := Column(selected, RowIdCol);
    if c.Ok? {
      ZipStore(c.value, selected);
    }
  }

  /** `dict(zip(ks, vs))` for as many keys as values: distinct keys in order, each mapped to the value at its last position. */
  lemma ZipStore<K(!new), V>(ks: seq<K>, vs: seq<V>)
    requires |ks| == |vs|
    ensures Dicts.Keys(Dicts.FromEntries(Dicts.Zip(ks, vs))) == Seqs.Distinct(ks)
    ensures forall k :: Dicts.Get(Dicts.FromEntries(Dicts.Zip(ks, vs)), k) == if k in ks then Some(vs[Dicts.LastIndex(ks, k)]) else None
  {
    if |ks| > 0 {
      ZipAsCycle(ks, vs);
      Dicts.ZipCycleKeys(ks, vs);
      forall k ensures Dicts.Get(Dicts.FromEntries(Dicts.Zip(ks, vs)), k) == if k in ks then Some(vs[Dicts.LastIndex(ks, k)]) else None {
        Dicts.ZipCycleGet(ks, vs, k);
        if k in ks {
          ModBelow(Dicts.LastIndex(ks, k), |vs|);
        }
      }
    }
  }

  /** Zipping keys with as many values never wraps around. */
  lemma ZipAsCycle<K, V>(ks: seq<K>, vs: seq<V>)
    requires |ks| == |vs| > 0
    ensures Dicts.Zip(ks, vs) == Dicts.ZipCycle(ks, vs)
  {
    var a, b := Dicts.Zip(ks, vs), Dicts.ZipCycle(ks, vs);
    forall i | 0 <= i < |a| ensures a[i] == b[i] {
      ModBelow(i, |vs|);
    }
  }

  lemma ModBelow(i: int, n: int)
    requires 0 <= i < n
    ensures i % n == i
  {
  }

  /** With distinct row ids, each selected row is stored under its own id. */
  lemma DeletedStoreDistinct(selected: seq<Record>)
    requires DeletedStore(selected).Ok? && Seqs.NoDup(Column(selected, RowIdCol).value)
    ensures forall i :: 0 <= i < |selected| ==>
      Dicts.Get(DeletedStore(selected).value, Column(selected, RowIdCol).value[i]) == Some(selected[i])
  {
    var ids := Column(selected, RowIdCol).value;
    if |selected| > 0 {
      ZipAsCycle(ids, selected);
      Dicts.ZipCycleDistinct(ids, selected);
    }
  }

  /** The seven outputs of the delete callback: the three grids, the deleted-row store, the undo button and the problem modal. */
  datatype DeleteOutput = DeleteOutput(
    lipidomes: Update<seq<Record>>, differences: Update<seq<Record>>, log2fcs: Update<seq<Record>>,
    store: Update<Dicts.Dict<Value, Record>>, undoDisabled: Update<bool>, modalOpen: bool, message: Update<string>)

  /** `delete_selected_lipidomes`. */
  function DeleteSelected(selected: Option<seq<Record>>, lipidomes: seq<Record>, differences: seq<Record>,
                          log2fcs: seq<Record>): Result<DeleteOutput>
  {
    if selected.None? || |selected.value| < 1 then
      Ok(DeleteOutput(NoUpdate, NoUpdate, NoUpdate, NoUpdate, NoUpdate, true, Update(SelectAtLeastOneText)))
    else
      match Column(selected.value, LipidomeCol)
      case Err(e) => Err(e)
      case Ok(deleted) =>
        match KeepLipidomes(lipidomes, deleted)
        case Err(e) => Err(e)
        case Ok(ls) =>
          match KeepChanges(differences, deleted)
          case Err(e) => Err(e)
          case Ok(ds) =>
            match KeepChanges(log2fcs, deleted)
            case Err(e) => Err(e)
            case Ok(l2) =>
              match DeletedStore(selected.value)
              case Err(e) => Err(e)
              case Ok(store) =>
                Ok(DeleteOutput(Update(ls), Update(ds), Update(l2), Update(store), Update(false), false, NoUpdate))
  }

  /**
   * Deletion is refused, changing nothing, exactly when no row is
   * selected. Otherwise, with the names of the selected rows deleted: a
   * lipidome record stays exactly when its name was not deleted, a change
   * record exactly when neither end was deleted, the store keeps the
   * selected rows by their row ids, and undo is enabled. Every error is
   * KeyError.
   */
  lemma DeleteSelectedSpec(selected: Option<seq<Record>>, lipidomes: seq<Record>, differences: seq<Record>,
                           log2fcs: seq<Record>)
    ensures var r := DeleteSelected(selected, lipidomes, differences, log2fcs);
      && (r.Err? ==> r.error == KeyError)
      && (r.Ok? && r.value.modalOpen <==> selected.None? || |selected.value| < 1)
      && (r.Ok? && r.value.modalOpen ==>
            && r.value.lipidomes.NoUpdate? && r.value.differences.NoUpdate? && r.value.log2fcs.NoUpdate?
            && r.value.store.NoUpdate? && r.value.undoDisabled.NoUpdate?)
      && (r.Ok? && !r.value.modalOpen ==>
            var deleted := Column(selected.value, LipidomeCol).value;
            && r.value.undoDisabled == Update(false) && r.value.message.NoUpdate?
            && r.value.lipidomes.Update? && r.value.differences.Update? && r.value.log2fcs.Update?
            && r.value.store == Update(DeletedStore(selected.value).value)
            && (forall x :: x in r.value.lipidomes.value <==> x in lipidomes && NameOf(x).Some? && NameOf(x).value !in deleted)
            && (forall x :: x in r.value.differences.value <==> x in differences && KeptChange(x, deleted))
            && (forall x :: x in r.value.log2fcs.value <==> x in log2fcs && KeptChange(x, deleted)))
  {
  }

  /** A selected row that is a lipidome record is gone after the deletion. */
  lemma DeletedRowsGone(selected: seq<Record>, lipidomes: seq<Record>, differences: seq<Record>,
                        log2fcs: seq<Record>, x: Record)
    requires DeleteSelected(Some(selected), lipidomes, differences, log2fcs).Ok?
    requires x in selected
    ensures var out := DeleteSelected(Some(selected), lipidomes, differences, log2fcs).value;
      out.lipidomes.Update? && x !in out.lipidomes.value
  {
    var deleted := Column(selected, LipidomeCol).value;
    var i :| 0 <= i < |selected| && selected[i] == x;
    assert NameOf(x) == Some(deleted[i]);
  }

  /** The list reversed. */
  function Reverse<T>(s: seq<T>): (r: seq<T>)
    ensures |r| == |s| && forall i :: 0 <= i < |s| ==> r[i] == s[|s| - 1 - i]
  {
    seq(|s|, i requires 0 <= i < |s| => s[|s| - 1 - i])
  }

  /** `sorted(last_deleted, reverse=True)`: the store's keys in descending code-point order. */
  function DescendingKeys(store: Dicts.Dict<string, Record>): seq<string> {
    Reverse(Sort(Dicts.Keys(store)))
  }

  /** For a store with distinct keys, the descending keys are its keys, each once, strictly decreasing. */
  lemma DescendingKeysSpec(store: Dicts.Dict<string, Record>)
    requires Seqs.NoDup(Dicts.Keys(store))
    ensures var ks := DescendingKeys(store);
      && |ks| == |store|
      && (forall k :: k in ks <==> k in Dicts.Keys(store))
      && (forall i, j :: 0 <= i < j < |ks| ==> LexLess(ks[j], ks[i]))
  {
    var keys := Dicts.Keys(store);
    assert forall i, j :: 0 <= i < j < |keys| ==> keys[i] != keys[j];
    SortDistinct(keys);
    var s := Sort(keys);
    assert |s| == |keys| by {
      assert |multiset(s)| == |s| && |multiset(keys)| == |keys|;
    }
    var ks := DescendingKeys(store);
    forall k ensures k in ks <==> k in s {
      if k in s {
        var i :| 0 <= i < |s| && s[i] == k;
        assert ks[|s| - 1 - i] == k;
      }
    }
  }

  /** Every descending key is a key of the store. */
  lemma DescendingKeysStored(store: Dicts.Dict<string, Record>)
    ensures forall i :: 0 <= i < |DescendingKeys(store)| ==> DescendingKeys(store)[i] in Dicts.Keys(store)
  {
    var s := Sort(Dicts.Keys(store));
    forall i | 0 <= i < |s| ensures s[i] in Dicts.Keys(store) {
      assert s[i] in multiset(s);
    }
  }

  /** The five outputs of the undo callback: the lipidome grid, the store, the undo button and the problem modal. */
  datatype UndoOutput = UndoOutput(
    lipidomes: Update<seq<Record>>, store: Update<Option<Dicts.Dict<string, Record>>>, undoDisabled: Update<bool>,
    modalOpen: bool, message: Update<string>)

  /**
   * `undo_last_delete_selected_lipidomes`: with nothing stored the modal
   * opens and nothing else changes; otherwise the stored rows are
   * appended to the lipidome records in descending key order, the store
   * is cleared and undo is disabled. The change grids are not touched, so
   * change records removed by the deletion stay removed.
   */
  method UndoLastDelete(lipidomes: seq<Record>, lastDeleted: Option<Dicts.Dict<string, Record>>) returns (r: UndoOutput)
    ensures lastDeleted.None? || |lastDeleted.value| < 1 ==>
      r == UndoOutput(NoUpdate, NoUpdate, NoUpdate, true, Update(NothingToUndoText))
    ensures lastDeleted.Some? && |lastDeleted.value| >= 1 ==>
      var ks := DescendingKeys(lastDeleted.value);
      && r.store == Update(None) && r.undoDisabled == Update(true) && !r.modalOpen && r.message.NoUpdate?
      && r.lipidomes.Update? && |r.lipidomes.value| == |lipidomes| + |ks|
      && r.lipidomes.value[..|lipidomes|] == lipidomes
      && forall i :: 0 <= i < |ks| ==> Dicts.Get(lastDeleted.value, ks[i]) == Some(r.lipidomes.value[|lipidomes| + i])
  {
    if lastDeleted.None? || |lastDeleted.value| < 1 {
      return UndoOutput(NoUpdate, NoUpdate, NoUpdate, true, Update(NothingToUndoText));
    }
    var store := lastDeleted.value;
    var ks := DescendingKeys(store);
    DescendingKeysStored(store);
    var records := lipidomes;
    for i := 0 to |ks|
      invariant |records| == |lipidomes| + i
      invariant records[..|lipidomes|] == lipidomes
      invariant forall j :: 0 <= j < i ==> Dicts.Get(store, ks[j]) == Some(records[|lipidomes| + j])
    {
      var row := Dicts.Get(store, ks[i]).value;
      records := records + [row];
    }
    return UndoOutput(Update(records), Update(None), Update(true), false, NoUpdate);
  }

  /**
   * With a store of distinct keys, undo appends every stored row and
   * nothing else: the rows after the old ones are the store's rows, one
   * per key.
   */
  lemma UndoRestoresStore(store: Dicts.Dict<string, Record>, appended: seq<Record>)
    requires Seqs.NoDup(Dicts.Keys(store))
    requires |appended| == |DescendingKeys(store)|
    requires forall i :: 0 <= i < |appended| ==> Dicts.Get(store, DescendingKeys(store)[i]) == Some(appended[i])
    ensures |appended| == |store|
    ensures forall k :: k in Dicts.Keys(store) ==> Dicts.Get(store, k).value in appended
    ensures forall x :: x in appended ==> exists k :: k in Dicts.Keys(store) && Dicts.Get(store, k) == Some(x)
  {
    DescendingKeysSpec(store);
    var ks := DescendingKeys(store);
    forall k | k in Dicts.Keys(store) ensures Dicts.Get(store, k).value in appended {
      var i :| 0 <= i < |ks| && ks[i] == k;
      assert Dicts.Get(store, k) == Some(appended[i]);
    }
    forall x | x in appended ensures exists k :: k in Dicts.Keys(store) && Dicts.Get(store, k) == Some(x) {
      var i :| 0 <= i < |appended| && appended[i] == x;
      assert ks[i] in Dicts.Keys(store);
    }
  }
}
