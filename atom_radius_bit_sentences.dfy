/**
 * Atom-radius-bit sentences: one sentence per atom of the bit map, holding
 * that atom's bits for the requested radii. The words are the same as the
 * radius-major sentences', only grouped by atom instead of by radius.
 */
module AtomSentences {
  import Seqs
  import PyStrings
  import opened AtomRadiusBits
  import opened BaseSentences

  /** The sentence of one atom: its word for each radius it has, in radii order. */
  function AtomWords(d: BitDict, atom: int, radii: seq<int>): (w: Sentence)
    requires atom in d
    decreases |radii|
  {
    if |radii| == 0 then []
    else Word(d, atom, radii[0]) + AtomWords(d, atom, radii[1..])
  }

  /**
   * An atom's sentence holds exactly the bits of the radii it has; it is
   * empty iff it has none of them, and no longer than the radii list.
   */
  lemma {:induction false} AtomWordsSpec(d: BitDict, atom: int, radii: seq<int>)
    requires atom in d
    ensures |AtomWords(d, atom, radii)| <= |radii|
    ensures AtomWords(d, atom, radii) == [] <==> forall j :: 0 <= j < |radii| ==> radii[j] !in d[atom]
    ensures forall w :: w in AtomWords(d, atom, radii) <==>
      exists j :: 0 <= j < |radii| && radii[j] in d[atom] && w == PyStrings.IntToString(d[atom][radii[j]])
    decreases |radii|
  {
    if |radii| > 0 {
      AtomWordsSpec(d, atom, radii[1..]);
      forall w ensures w in AtomWords(d, atom, radii) <==>
        exists j :: 0 <= j < |radii| && radii[j] in d[atom] && w == PyStrings.IntToString(d[atom][radii[j]])
      {
        if w in AtomWords(d, atom, radii[1..]) {
          var j :| 0 <= j < |radii[1..]| && radii[1..][j] in d[atom] && w == PyStrings.IntToString(d[atom][radii[1..][j]]);
          assert radii[1..][j] == radii[j + 1];
        }
        if exists j :: 0 <= j < |radii| && radii[j] in d[atom] && w == PyStrings.IntToString(d[atom][radii[j]]) {
          var j :| 0 <= j < |radii| && radii[j] in d[atom] && w == PyStrings.IntToString(d[atom][radii[j]]);
          if j > 0 {
            assert radii[1..][j - 1] == radii[j];
          }
        }
      }
      if AtomWords(d, atom, radii) == [] {
        forall j | 0 <= j < |radii| ensures radii[j] !in d[atom] {
          if j > 0 {
            assert radii[1..][j - 1] == radii[j];
          }
        }
      }
    }
  }

  /** The sentences of `atoms`, one per atom, in order; empty ones kept. */
  function AtomList(d: BitDict, atoms: seq<int>, radii: seq<int>): (ss: seq<Sentence>)
    requires Known(d, atoms)
    ensures |ss| == |atoms|
    ensures forall i :: 0 <= i < |atoms| ==> ss[i] == AtomWords(d, atoms[i], radii)
    decreases |atoms|
  {
    if |atoms| == 0 then []
    else [AtomWords(d, atoms[0], radii)] + AtomList(d, atoms[1..], radii)
  }

  /**
   * `AtomRadiusBitSentences.get_structured_sentences`: one sentence per
   * atom of the map, in atom order, each listing the atom's bits for the
   * radii it has, in radii order.
   */
  function StructuredSentences(m: AtomRadiusBitMap, radii: seq<int>): seq<Sentence>
    requires Valid(m)
  {
    AtomList(m.dict, m.keys, radii)
  }

  /**
   * There is one sentence per atom, and sentence `i` is empty exactly when
   * atom `i` has none of the radii.
   */
  lemma StructuredSentencesSpec(m: AtomRadiusBitMap, radii: seq<int>)
    requires Valid(m)
    ensures |StructuredSentences(m, radii)| == |m.Atoms()|
    ensures forall i :: 0 <= i < |m.keys| ==>
      (StructuredSentences(m, radii)[i] == [] <==> forall j :: 0 <= j < |radii| ==> radii[j] !in m.dict[m.keys[i]])
  {
    forall i | 0 <= i < |m.keys|
      ensures StructuredSentences(m, radii)[i] == [] <==> forall j :: 0 <= j < |radii| ==> radii[j] !in m.dict[m.keys[i]]
    {
      AtomWordsSpec(m.dict, m.keys[i], radii);
    }
  }

  /** With no atoms, the radius-major words are empty too. */
  lemma {:induction false} ByRadiusNoAtoms(d: BitDict, radii: seq<int>)
    ensures ByRadius(d, [], radii) == []
    decreases |radii|
  {
    if |radii| > 0 {
      ByRadiusNoAtoms(d, radii[1..]);
    }
  }

  /** The radius-major words split into the first atom's words and the rest's. */
  lemma {:induction false} ByRadiusFirstAtom(d: BitDict, atoms: seq<int>, radii: seq<int>)
    requires Known(d, atoms) && |atoms| > 0
    ensures multiset(ByRadius(d, atoms, radii)) ==
      multiset(AtomWords(d, atoms[0], radii)) + multiset(ByRadius(d, atoms[1..], radii))
    decreases |radii|
  {
    if |radii| > 0 {
      ByRadiusFirstAtom(d, atoms, radii[1..]);
      var r := radii[0];
      assert RadiusWords(d, atoms, r) == Word(d, atoms[0], r) + RadiusWords(d, atoms[1..], r);
    }
  }

  /**
   * Atom-major and radius-major sentences hold the same words, each as
   * often: the structured sentences joined are a rearrangement of the
   * flattened radius sentences.
   */
  lemma {:induction false} Transposed(d: BitDict, atoms: seq<int>, radii: seq<int>)
    requires Known(d, atoms)
    ensures multiset(Seqs.Flatten(AtomList(d, atoms, radii))) == multiset(ByRadius(d, atoms, radii))
    decreases |atoms|
  {
    if |atoms| == 0 {
      ByRadiusNoAtoms(d, radii);
    } else {
      Transposed(d, atoms[1..], radii);
      ByRadiusFirstAtom(d, atoms, radii);
      assert AtomList(d, atoms, radii)[1..] == AtomList(d, atoms[1..], radii);
    }
  }

  /** The structured sentences hold the same words as `get_flattened_atom_radius_sentences`, each as often. */
  lemma SameWordsAsRadiusMajor(m: AtomRadiusBitMap, radii: seq<int>)
    requires Valid(m)
    ensures multiset(Seqs.Flatten(StructuredSentences(m, radii))) == multiset(FlattenedSentences(m, radii))
  {
    Transposed(m.dict, m.keys, radii);
    FlattenedSentencesSpec(m, radii);
  }

  /**
   * `AtomRadiusBitSentencesLoader._gen_sentences_series_iter`: each loaded
   * bit map becomes its sentences, in the same order.
   */
  function LoadSentences(maps: seq<AtomRadiusBitMap>, radii: seq<int>): (r: seq<seq<Sentence>>)
    requires forall i :: 0 <= i < |maps| ==> Valid(maps[i])
    ensures |r| == |maps|
    ensures forall i :: 0 <= i < |maps| ==> r[i] == StructuredSentences(maps[i], radii)
    decreases |maps|
  {
    if |maps| == 0 then []
    else [StructuredSentences(maps[0], radii)] + LoadSentences(maps[1..], radii)
  }
}
