/**
 * The atom radius bit map descriptor: for every atom of a molecule, the
 * Morgan fingerprint bit that the environment of each radius around it
 * sets. The fingerprint's bit info (bit, then the (atom, radius) pairs that
 * set it, in the fingerprint's order) is an input here.
 */
module AtomRadiusBits {
  import opened Wrappers
  import Seqs

  /** The bit info: each bit with the (atom, radius) environments that set it, in dict order. */
  type BitInfo = seq<(int, seq<(int, int)>)>

  /** Every atom the bit info mentions is an atom of the molecule. */
  predicate AtomsKnown(atoms: seq<int>, info: BitInfo) {
    forall j, k :: 0 <= j < |info| && 0 <= k < |info[j].1| ==> info[j].1[k].0 in atoms
  }

  /** Every atom starts with an empty radius-to-bit dict. */
  function Init(atoms: seq<int>): (d: map<int, map<int, int>>)
    ensures forall a :: a in d <==> a in atoms
    ensures forall a :: a in d ==> d[a] == map[]
  {
    map a | a in atoms :: map[]
  }

  /** Recording `bit` for every (atom, radius) pair of `pairs`, in order. */
  function Record(d: map<int, map<int, int>>, bit: int, pairs: seq<(int, int)>): (r: map<int, map<int, int>>)
    requires forall k :: 0 <= k < |pairs| ==> pairs[k].0 in d
    ensures r.Keys == d.Keys
    decreases |pairs|
  {
    if |pairs| == 0 then d
    else
      var prev := Record(d, bit, pairs[..|pairs| - 1]);
      var (atom, radius) := pairs[|pairs| - 1];
      prev[atom := prev[atom][radius := bit]]
  }

  /** Recording every bit of the bit info, in order: later bits overwrite earlier ones. */
  function Fill(d: map<int, map<int, int>>, info: BitInfo): (r: map<int, map<int, int>>)
    requires forall j, k :: 0 <= j < |info| && 0 <= k < |info[j].1| ==> info[j].1[k].0 in d
    ensures r.Keys == d.Keys
    decreases |info|
  {
    if |info| == 0 then d
    else Record(Fill(d, info[..|info| - 1]), info[|info| - 1].0, info[|info| - 1].1)
  }

  /** The last bit in the bit info that lists the pair (atom, radius), if any. */
  function LastBit(info: BitInfo, atom: int, radius: int): (b: Option<int>)
    decreases |info|
  {
    if |info| == 0 then None
    else if (atom, radius) in info[|info| - 1].1 then Some(info[|info| - 1].0)
    else LastBit(info[..|info| - 1], atom, radius)
  }

  /** After recording one bit, a pair it lists maps to it; every other entry is as before. */
  lemma {:induction false} RecordSpec(d: map<int, map<int, int>>, bit: int, pairs: seq<(int, int)>, atom: int, radius: int)
    requires forall k :: 0 <= k < |pairs| ==> pairs[k].0 in d
    requires atom in d
    ensures var r := Record(d, bit, pairs);
      && (radius in r[atom] <==> (atom, radius) in pairs || radius in d[atom])
      && ((atom, radius) in pairs ==> r[atom][radius] == bit)
      && ((atom, radius) !in pairs && radius in d[atom] ==> r[atom][radius] == d[atom][radius])
    decreases |pairs|
  {
    if |pairs| > 0 {
      var init := pairs[..|pairs| - 1];
      RecordSpec(d, bit, init, atom, radius);
      assert pairs == init + [pairs[|pairs| - 1]];
    }
  }

  /**
   * After the whole bit info, an atom's dict holds a radius iff some bit
   * lists the pair, and then the bit is the last one listing it.
   */
  lemma {:induction false} FillSpec(atoms: seq<int>, info: BitInfo, atom: int, radius: int)
    requires AtomsKnown(atoms, info)
    requires atom in atoms
    ensures var r := Fill(Init(atoms), info);
      && atom in r
      && (radius in r[atom] <==> LastBit(info, atom, radius).Some?)
      && (radius in r[atom] ==> r[atom][radius] == LastBit(info, atom, radius).value)
    decreases |info|
  {
    if |info| > 0 {
      var init := info[..|info| - 1];
      assert AtomsKnown(atoms, init) by {
        forall j, k | 0 <= j < |init| && 0 <= k < |init[j].1| ensures init[j].1[k].0 in atoms {
          assert init[j] == info[j];
        }
      }
      FillSpec(atoms, init, atom, radius);
      RecordSpec(Fill(Init(atoms), init), info[|info| - 1].0, info[|info| - 1].1, atom, radius);
    }
  }

  /** Every pair the bit info lists has a last bit, and that bit lists it. */
  lemma {:induction false} LastBitListed(info: BitInfo, atom: int, radius: int)
    ensures LastBit(info, atom, radius).Some? <==>
      exists j :: 0 <= j < |info| && (atom, radius) in info[j].1
    ensures LastBit(info, atom, radius).Some? ==>
      exists j :: 0 <= j < |info| && (atom, radius) in info[j].1 && info[j].0 == LastBit(info, atom, radius).value &&
        forall l :: j < l < |info| ==> (atom, radius) !in info[l].1
    decreases |info|
  {
    if |info| > 0 {
      var init := info[..|info| - 1];
      LastBitListed(init, atom, radius);
      if (atom, radius) !in info[|info| - 1].1 {
        if exists j :: 0 <= j < |info| && (atom, radius) in info[j].1 {
          var j :| 0 <= j < |info| && (atom, radius) in info[j].1;
          assert info[j] == init[j];
        }
        if LastBit(init, atom, radius).Some? {
          var j :| 0 <= j < |init| && (atom, radius) in init[j].1 && init[j].0 == LastBit(init, atom, radius).value &&
            forall l :: j < l < |init| ==> (atom, radius) !in init[l].1;
          assert info[j] == init[j];
          assert forall l :: j < l < |info| - 1 ==> info[l] == init[l];
        }
      }
    }
  }

  /**
   * `_gen_atom_radius_bit_dict`: an empty dict per atom, then, bit by bit
   * and pair by pair, the bit written under the atom and radius.
   */
  method GenAtomRadiusBitDict(atoms: seq<int>, info: BitInfo) returns (d: map<int, map<int, int>>)
    requires AtomsKnown(atoms, info)
    ensures d == Fill(Init(atoms), info)
  {
    d := map a | a in atoms :: map[];
    for j := 0 to |info|
      invariant d.Keys == Init(atoms).Keys
      invariant d == Fill(Init(atoms), info[..j])
    {
      assert info[..j + 1][..j] == info[..j];
      var (bit, pairs) := info[j];
      ghost var start := d;
      for k := 0 to |pairs|
        invariant d == Record(start, bit, pairs[..k])
      {
        assert pairs[..k + 1][..k] == pairs[..k];
        var (atom, radius) := pairs[k];
        d := d[atom := d[atom][radius := bit]];
      }
      assert pairs[..|pairs|] == pairs;
    }
    assert info[..|info|] == info;
  }

  /** `AtomRadiusBitMap`: the dict, its keys in insertion order, and (derived from them) `atoms`. */
  datatype AtomRadiusBitMap = AtomRadiusBitMap(keys: seq<int>, dict: map<int, map<int, int>>)
  {
    /** `atoms`: the dict's keys in insertion order. */
    function Atoms(): seq<int> { keys }

    /** `serialize`: the stored dict, keys in order. */
    function Serialize(): (seq<int>, map<int, map<int, int>>) { (keys, dict) }
  }

  /** `deserialize`: a bit map around the given dict. */
  function Deserialize(data: (seq<int>, map<int, map<int, int>>)): AtomRadiusBitMap {
    AtomRadiusBitMap(data.0, data.1)
  }

  /** Deserialising a serialised bit map gives the same dict and the same atoms. */
  lemma SerializeRoundTrip(m: AtomRadiusBitMap)
    ensures Deserialize(m.Serialize()).dict == m.dict
    ensures Deserialize(m.Serialize()).Atoms() == m.Atoms()
  {
  }

  /**
   * `from_mol` given the molecule's atoms and its bit info: every atom has
   * an entry, listed in atom order, mapping each radius to the last bit
   * that lists the atom at that radius.
   */
  method FromBitInfo(atoms: seq<int>, info: BitInfo) returns (m: AtomRadiusBitMap)
    requires Seqs.NoDup(atoms) && AtomsKnown(atoms, info)
    ensures m.Atoms() == atoms
    ensures forall a :: a in m.dict <==> a in atoms
    ensures forall a, r :: a in m.dict ==>
      (r in m.dict[a] <==> LastBit(info, a, r).Some?) &&
      (r in m.dict[a] ==> m.dict[a][r] == LastBit(info, a, r).value)
  {
    var d := GenAtomRadiusBitDict(atoms, info);
    forall a, r | a in d
      ensures (r in d[a] <==> LastBit(info, a, r).Some?) && (r in d[a] ==> d[a][r] == LastBit(info, a, r).value)
    {
      FillSpec(atoms, info, a, r);
    }
    m := AtomRadiusBitMap(atoms, d);
  }
}
