/**
 * A lipidome dataset: the abundance table (lipidomes by lipids), the
 * lipidome feature table, the lipid feature table and the store of
 * abundance changes, kept consistent with each other: the same lipidomes
 * under the same index name, the same lipids, and a change store over
 * exactly those lipidomes and lipids.
 */
module Dataset {
  import opened Wrappers
  import opened PyStrings
  import Seqs
  import opened BaseDfWrapper
  import AbundanceChanges
  import Features

  // ---------------------------------------------------------------
  // Cross-table validation.
  // ---------------------------------------------------------------

  /** The abundance and lipidome feature tables hold the same lipidomes under the same index name. */
  ghost predicate LipidomesAgree(ab: Frame, lf: Frame)
    requires WellFormed(ab) && WellFormed(lf)
  {
    && (forall e :: e in lf.index <==> e in ab.index)
    && IndexName(ab) == IndexName(lf)
  }

  /** The abundance columns are exactly the lipids the lipid feature table is indexed by. */
  ghost predicate LipidsAgree(ab: Frame, lp: Frame)
    requires WellFormed(lp)
  {
    forall k :: k in AbundanceChanges.Labels(lp) <==> k in ab.columns
  }

  /** A change store over exactly the abundance lipidomes and lipids (empty symmetric differences). */
  ghost predicate ChangesAgree(ab: Frame, lipidomes: seq<Key>, lipids: seq<Key>)
    requires WellFormed(ab)
  {
    && (forall k :: k in lipidomes <==> k in AbundanceChanges.Labels(ab))
    && (forall k :: k in lipids <==> k in ab.columns)
  }

  /** `_validate_lipidomes`: lipidomes missing on either side, or differing index names, raise ValueError. */
  function ValidateLipidomes(ab: Frame, lf: Frame): Result<()>
    requires WellFormed(ab) && WellFormed(lf)
  {
    if exists e :: e in lf.index && e !in ab.index then Err(ValueError)
    else if exists e :: e in ab.index && e !in lf.index then Err(ValueError)
    else if IndexName(ab) != IndexName(lf) then Err(ValueError)
    else Ok(())
  }

  /** `_validate_lipids`: lipids missing on either side raise ValueError (the third check repeats the second). */
  function ValidateLipids(ab: Frame, lp: Frame): Result<()>
    requires WellFormed(lp)
  {
    var ls := AbundanceChanges.Labels(lp);
    if exists k :: k in ls && k !in ab.columns then Err(ValueError)
    else if exists k :: k in ab.columns && k !in ls then Err(ValueError)
    else if exists k :: k in ab.columns && k !in ls then Err(ValueError)
    else Ok(())
  }

  /** `_validate_changes`: a non-empty symmetric difference of lipidomes or of lipids raises ValueError. */
  function ValidateChanges(ab: Frame, lipidomes: seq<Key>, lipids: seq<Key>): Result<()>
    requires WellFormed(ab)
  {
    var ids := AbundanceChanges.Labels(ab);
    if (exists k :: k in ids && k !in lipidomes) || (exists k :: k in lipidomes && k !in ids) then Err(ValueError)
    else if (exists k :: k in ab.columns && k !in lipids) || (exists k :: k in lipids && k !in ab.columns) then Err(ValueError)
    else Ok(())
  }

  /** `_validate_input`: lipidomes, then lipids, then, when a store is given, its lipidomes and lipids. */
  function ValidateInput(ab: Frame, lf: Frame, lp: Frame, store: Option<(seq<Key>, seq<Key>)>): Result<()>
    requires WellFormed(ab) && WellFormed(lf) && WellFormed(lp)
  {
    if ValidateLipidomes(ab, lf).Err? then Err(ValueError)
    else if ValidateLipids(ab, lp).Err? then Err(ValueError)
    else if store.Some? && ValidateChanges(ab, store.value.0, store.value.1).Err? then Err(ValueError)
    else Ok(())
  }

  /**
   * The input is accepted iff the lipidomes agree (as sets, and in index
   * name), the lipids agree as sets, and a given store has exactly the
   * abundance lipidomes and lipids; every rejection is a ValueError.
   */
  lemma ValidateInputSpec(ab: Frame, lf: Frame, lp: Frame, store: Option<(seq<Key>, seq<Key>)>)
    requires WellFormed(ab) && WellFormed(lf) && WellFormed(lp)
    ensures ValidateInput(ab, lf, lp, store).Ok? <==>
      LipidomesAgree(ab, lf) && LipidsAgree(ab, lp) && (store.Some? ==> ChangesAgree(ab, store.value.0, store.value.1))
    ensures ValidateInput(ab, lf, lp, store).Err? ==> ValidateInput(ab, lf, lp, store).error == ValueError
  {
  }

  // ---------------------------------------------------------------
  // Group names.
  // ---------------------------------------------------------------

  /** `_gen_lipidome_group_names`: `"{operation} | {ids joined by ', '}"` per group. */
  function LipidomeGroupNames(groups: seq<seq<string>>, operation: string): (names: seq<string>)
    ensures |names| == |groups|
  {
    GroupNames(groups, operation)
  }

  /**
   * The names the dataset passes down are the ones the aggregation would
   * have chosen by default, so passing them changes nothing; they are
   * distinct for distinct groups of comma-free labels.
   */
  lemma LipidomeGroupNamesAreDefaults(groups: seq<seq<string>>, operation: string)
    ensures LipidomeGroupNames(groups, operation) == EffectiveNames(groups, operation, None, None)
    ensures Seqs.NoDup(groups) && (forall g :: g in groups ==> |g| >= 1) &&
            (forall g, l :: g in groups && l in g ==> ',' !in l) ==>
              Seqs.NoDup(LipidomeGroupNames(groups, operation))
  {
    if Seqs.NoDup(groups) && (forall g :: g in groups ==> |g| >= 1) &&
       (forall g, l :: g in groups && l in g ==> ',' !in l) {
      GroupNamesDistinct(groups, operation);
    }
  }

  /** The texts of a tuple of text values. */
  function Texts(t: Features.Tuple): (ss: seq<string>)
    requires forall k :: 0 <= k < |t| ==> t[k].Text?
    ensures |ss| == |t|
    ensures forall k :: 0 <= k < |t| ==> t[k] == Text(ss[k])
  {
    seq(|t|, (k: int) requires 0 <= k < |t| => t[k].s)
  }

  predicate TextTuple(t: Features.Tuple) {
    forall k :: 0 <= k < |t| ==> t[k].Text?
  }

  /**
   * `_gen_feature_group_names`: per product tuple its values joined by
   * ", ", after `"{operation} | "` when the prefix is asked for; a
   * non-text value makes the join raise TypeError.
   */
  function FeatureGroupNames(lf: Frame, features: seq<string>, operation: string, prefix: bool, validate: bool)
    : Result<seq<string>>
    requires WellFormed(lf)
  {
    match Features.FeatureProduct(lf, features, validate)
    case Err(e) => Err(e)
    case Ok(entries) =>
      if exists j :: 0 <= j < |entries| && !TextTuple(entries[j].1) then Err(TypeError)
      else Ok(seq(|entries|, (j: int) requires 0 <= j < |entries| =>
        (if prefix then operation + " | " else "") + Join(Texts(entries[j].1), ", ")))
  }

  /**
   * There is one name per product entry, in entry order, so names and
   * lipidome groups pair up by position; the prefixed name is the
   * lipidome-group name format applied to the tuple, and it is the
   * unprefixed name after `"{operation} | "`.
   */
  lemma FeatureGroupNamesSpec(lf: Frame, features: seq<string>, operation: string, validate: bool)
    requires WellFormed(lf)
    ensures var with := FeatureGroupNames(lf, features, operation, true, validate);
      var without := FeatureGroupNames(lf, features, operation, false, validate);
      var p := Features.FeatureProduct(lf, features, validate);
      && (with.Ok? <==> without.Ok?)
      && (with.Ok? <==> p.Ok? && forall j :: 0 <= j < |p.value| ==> TextTuple(p.value[j].1))
      && (p.Ok? && with.Err? ==> with.error == TypeError && without.error == TypeError)
      && (with.Ok? ==>
            && |with.value| == |without.value| == |p.value|
            && (forall j :: 0 <= j < |p.value| ==>
                  && with.value[j] == GroupName(operation, Texts(p.value[j].1))
                  && with.value[j] == operation + " | " + without.value[j]))
  {
  }

  // ---------------------------------------------------------------
  // Subsets.
  // ---------------------------------------------------------------

  /** Requested labels as index keys, or the current ones. */
  function Requested(ls: Option<seq<string>>, current: seq<Key>): seq<Key>
  {
    if ls.Some? then Seqs.Map(ls.value, (l: string) => Str(l)) else current
  }

  lemma LabelsOfLbl(ls: seq<string>)
    ensures forall f: Frame :: WellFormed(f) && f.index == Seqs.Map(ls, Lbl) ==>
      AbundanceChanges.Labels(f) == Seqs.Map(ls, (l: string) => Str(l))
  {
  }

  /** Cutting both tables to the same lipidomes keeps them in agreement. */
  lemma SubsetLipidomesAgree(ab: Frame, lf: Frame, lipidomes: Option<seq<string>>, lipids: Option<seq<string>>)
    requires WellFormed(ab) && WellFormed(lf) && LipidomesAgree(ab, lf)
    requires Features.Subset(ab, lipidomes, lipids).Ok? && Features.Subset(lf, lipidomes, None).Ok?
    ensures var sa := Features.Subset(ab, lipidomes, lipids).value;
      var sf := Features.Subset(lf, lipidomes, None).value;
      WellFormed(sa) && WellFormed(sf) && LipidomesAgree(sa, sf)
  {
    Features.SubsetSpec(ab, lipidomes, lipids);
    Features.SubsetSpec(lf, lipidomes, None);
    SubsetWellFormed(ab, lipidomes, lipids);
    SubsetWellFormed(lf, lipidomes, None);
    var sa := Features.Subset(ab, lipidomes, lipids).value;
    var sf := Features.Subset(lf, lipidomes, None).value;
    if lipidomes.Some? {
      assert sa.index == sf.index;
    } else {
      assert sa.index == ab.index && sf.index == lf.index;
    }
    assert IndexName(sa) == IndexName(ab) && IndexName(sf) == IndexName(lf);
  }

  /** Cutting the abundance columns and the lipid feature rows to the same lipids keeps them in agreement. */
  lemma SubsetLipidsAgree(ab: Frame, lp: Frame, lipidomes: Option<seq<string>>, lipids: Option<seq<string>>)
    requires WellFormed(ab) && WellFormed(lp) && LipidsAgree(ab, lp)
    requires Features.Subset(ab, lipidomes, lipids).Ok? && Features.Subset(lp, lipids, None).Ok?
    ensures var sa := Features.Subset(ab, lipidomes, lipids).value;
      var sp := Features.Subset(lp, lipids, None).value;
      WellFormed(sp) && LipidsAgree(sa, sp)
  {
    Features.SubsetSpec(ab, lipidomes, lipids);
    Features.SubsetSpec(lp, lipids, None);
    SubsetWellFormed(lp, lipids, None);
    if lipids.Some? { LabelsOfLbl(lipids.value); }
  }

  /** The store cut to the requested lipidomes and lipids matches the cut abundance table. */
  lemma SubsetChangesAgree(ab: Frame, ids: seq<Key>, lipidsKeys: seq<Key>,
                           lipidomes: Option<seq<string>>, lipids: Option<seq<string>>)
    requires WellFormed(ab) && ChangesAgree(ab, ids, lipidsKeys)
    requires Features.Subset(ab, lipidomes, lipids).Ok?
    ensures var sa := Features.Subset(ab, lipidomes, lipids).value;
      WellFormed(sa) && ChangesAgree(sa, Requested(lipidomes, ids), Requested(lipids, lipidsKeys))
  {
    Features.SubsetSpec(ab, lipidomes, lipids);
    SubsetWellFormed(ab, lipidomes, lipids);
    if lipidomes.Some? { LabelsOfLbl(lipidomes.value); }
  }

  /** A subset of a well-formed table is well-formed. */
  lemma SubsetWellFormed(f: Frame, ls: Option<seq<string>>, cs: Option<seq<string>>)
    requires WellFormed(f)
    ensures Features.Subset(f, ls, cs).Ok? ==> WellFormed(Features.Subset(f, ls, cs).value)
  {
    Features.SubsetSpec(f, ls, cs);
    var r := Features.Subset(f, ls, cs);
    if r.Ok? && ls.Some? {
      var m := Seqs.Map(ls.value, Lbl);
      assert forall i :: 0 <= i < |m| ==> |m[i]| == 1;
      assert forall e :: e in m ==> e in f.index;
      forall i | 0 <= i < |m| ensures |m[i]| == |f.names| {
        assert m[i] in m;
      }
    }
  }

  // ---------------------------------------------------------------
  // The dataset object.
  // ---------------------------------------------------------------

  /** `LipidomeDataset`: a name and the four tables it owns. */
  class LipidomeDataset {
    const name: string
    const abundances: Frame
    const lipidomeFeatures: Features.LipidomeFeatures
    const lipidFeatures: Frame
    const changes: AbundanceChanges.Storage

    /** The agreement the constructor checks when validating. */
    ghost predicate Consistent()
      reads this, lipidomeFeatures, changes
    {
      && WellFormed(abundances) && WellFormed(lipidomeFeatures.frame) && WellFormed(lipidFeatures)
      && LipidomesAgree(abundances, lipidomeFeatures.frame)
      && LipidsAgree(abundances, lipidFeatures)
      && ChangesAgree(abundances, changes.lipidomes, changes.lipids)
    }

    constructor Of(name: string, ab: Frame, lf: Features.LipidomeFeatures, lp: Frame, store: AbundanceChanges.Storage)
      ensures this.name == name && abundances == ab && lipidomeFeatures == lf && lipidFeatures == lp && changes == store
    {
      this.name := name;
      abundances := ab;
      lipidomeFeatures := lf;
      lipidFeatures := lp;
      changes := store;
    }

    /**
     * `LipidomeDataset(...)`: validate the tables against each other
     * (when asked), and, when no change store is given, build an empty one
     * over the abundance lipidomes and lipids, whose empty tables are
     * validated in turn.
     */
    static method Create(name: string, ab: Frame, lf: Features.LipidomeFeatures, lp: Frame,
                         store: Option<AbundanceChanges.Storage>, validate: bool)
      returns (r: Result<LipidomeDataset>)
      requires WellFormed(ab) && WellFormed(lf.frame) && WellFormed(lp)
      ensures var input := ValidateInput(ab, lf.frame, lp,
                                         if store.Some? then Some((store.value.lipidomes, store.value.lipids)) else None);
        var empty := AbundanceChanges.EmptyFromLipids(ab.columns);
        && (r.Err? <==> (validate && input.Err?) ||
                        (store.None? && AbundanceChanges.ValidateChangeTable(empty).Err?))
        && (r.Err? ==> r.error == ValueError)
        && (r.Ok? ==>
              && fresh(r.value)
              && r.value.name == name && r.value.abundances == ab
              && r.value.lipidomeFeatures == lf && r.value.lipidFeatures == lp
              && (store.Some? ==> r.value.changes == store.value)
              && (store.None? ==>
                    && fresh(r.value.changes) && r.value.changes.Valid()
                    && r.value.changes.lipidomes == AbundanceChanges.Labels(ab)
                    && r.value.changes.lipids == ab.columns
                    && r.value.changes.differences.frame == empty
                    && r.value.changes.fcs.frame == empty
                    && r.value.changes.log2fcs.frame == empty)
              && (validate ==> r.value.Consistent()))
    {
      var input := ValidateInput(ab, lf.frame, lp,
                                 if store.Some? then Some((store.value.lipidomes, store.value.lipids)) else None);
      if validate && input.Err? {
        ValidateInputSpec(ab, lf.frame, lp, if store.Some? then Some((store.value.lipidomes, store.value.lipids)) else None);
        return Err(ValueError);
      }
      var s: AbundanceChanges.Storage;
      if store.Some? {
        s := store.value;
      } else {
        var empty := AbundanceChanges.EmptyFromLipids(ab.columns);
        if AbundanceChanges.ValidateChangeTable(empty).Err? {
          return Err(ValueError);
        }
        s := new AbundanceChanges.Storage(AbundanceChanges.Labels(ab), ab.columns, None, None, None, true);
      }
      if validate {
        ValidateInputSpec(ab, lf.frame, lp, if store.Some? then Some((store.value.lipidomes, store.value.lipids)) else None);
      }
      var d := new LipidomeDataset.Of(name, ab, lf, lp, s);
      return Ok(d);
    }

    /** `add_feature_in_place`: the lipidome feature table gains the column; the dataset stays consistent. */
    method AddFeatureInPlace(featureName: string, s: Features.Series, overwrite: bool, validate: bool)
      returns (r: Result<()>)
      requires WellFormed(lipidomeFeatures.frame) && Features.SeriesWellFormed(s)
      modifies lipidomeFeatures
      ensures var expected := Features.WithFeature(old(lipidomeFeatures.frame), featureName, s, overwrite, validate);
        && (r.Ok? <==> expected.Ok?)
        && (r.Err? ==> r.error == expected.error && lipidomeFeatures.frame == old(lipidomeFeatures.frame))
        && (r.Ok? ==> lipidomeFeatures.frame == expected.value)
      ensures old(Consistent()) ==> Consistent()
    {
      r := lipidomeFeatures.AddFeatureInPlace(featureName, s, overwrite, validate);
      if r.Ok? {
        var f := old(lipidomeFeatures.frame);
        assert lipidomeFeatures.frame == Features.Assign(f, featureName, s);
        assert lipidomeFeatures.frame.index == f.index && lipidomeFeatures.frame.names == f.names;
      }
    }

    /**
     * `get_subset`: a new dataset over the requested lipidomes and lipids,
     * named as given or as this one; the three tables are cut with the
     * caller's `validate` (an absent lipidome or lipid raises ValueError
     * with it, KeyError without), the change store without validation.
     */
    method GetSubset(lipidomes: Option<seq<string>>, lipids: Option<seq<string>>, newName: Option<string>, validate: bool)
      returns (r: Result<LipidomeDataset>)
      requires WellFormed(abundances) && WellFormed(lipidomeFeatures.frame) && WellFormed(lipidFeatures)
      requires changes.Valid()
      ensures var sa := Features.SubsetChecked(abundances, lipidomes, lipids, validate);
        var sf := Features.SubsetChecked(lipidomeFeatures.frame, lipidomes, None, validate);
        var sp := Features.SubsetChecked(lipidFeatures, lipids, None, validate);
        var ls := Requested(lipidomes, changes.lipidomes);
        var cs := Requested(lipids, changes.lipids);
        var sd := AbundanceChanges.ChangeTableSubset(changes.differences.frame, Some(ls), Some(cs), false);
        var sc := AbundanceChanges.ChangeTableSubset(changes.fcs.frame, Some(ls), Some(cs), false);
        var sl := AbundanceChanges.ChangeTableSubset(changes.log2fcs.frame, Some(ls), Some(cs), false);
        && (r.Ok? <==> sa.Ok? && sf.Ok? && sp.Ok? && sd.Ok? && sc.Ok? && sl.Ok?)
        && (!(sa.Ok? && sf.Ok? && sp.Ok?) ==> r == Err(if validate then ValueError else KeyError))
        && (r.Ok? ==>
              && fresh(r.value) && fresh(r.value.lipidomeFeatures) && fresh(r.value.changes)
              && r.value.name == (if newName.Some? then newName.value else name)
              && r.value.abundances == sa.value
              && r.value.lipidomeFeatures.frame == sf.value
              && r.value.lipidFeatures == sp.value
              && r.value.changes.lipidomes == ls && r.value.changes.lipids == cs
              && r.value.changes.differences.frame == sd.value
              && r.value.changes.fcs.frame == sc.value
              && r.value.changes.log2fcs.frame == sl.value
              && (Consistent() ==> r.value.Consistent()))
    {
      var sa := Features.SubsetChecked(abundances, lipidomes, lipids, validate);
      if sa.Err? {
        return Err(sa.error);
      }
      var sf := Features.SubsetChecked(lipidomeFeatures.frame, lipidomes, None, validate);
      if sf.Err? {
        return Err(sf.error);
      }
      var sp := Features.SubsetChecked(lipidFeatures, lipids, None, validate);
      if sp.Err? {
        return Err(sp.error);
      }
      var store := changes.GetSubset(if lipidomes.Some? then Some(Requested(lipidomes, [])) else None,
                                     if lipids.Some? then Some(Requested(lipids, [])) else None, false);
      if store.Err? {
        return Err(store.error);
      }
      SubsetWellFormed(lipidomeFeatures.frame, lipidomes, None);
      var features := new Features.LipidomeFeatures(sf.value, false);
      var n := if newName.Some? then newName.value else name;
      var d := new LipidomeDataset.Of(n, sa.value, features, sp.value, store.value);
      if Consistent() {
        SubsetLipidomesAgree(abundances, lipidomeFeatures.frame, lipidomes, lipids);
        SubsetLipidsAgree(abundances, lipidFeatures, lipidomes, lipids);
        SubsetChangesAgree(abundances, changes.lipidomes, changes.lipids, lipidomes, lipids);
      }
      return Ok(d);
    }
  }
}
