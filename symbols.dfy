/**
 * Marker symbols: the eight plotly symbols, as integer codes for 2D plots
 * and as names for 3D plots, cycled over the classes of a column.
 */
module Symbols {
  import opened Wrappers
  import Seqs
  import Dicts

  /** A plotly marker symbol: an integer code (2D) or a symbol name (3D). */
  datatype Symbol = Code(code: int) | Named(name: string)

  /** `SYMBOLS_2D`: circle, circle-open, cross, diamond, diamond-open, square, square-open, x. */
  const Symbols2D: seq<Symbol> := [Code(0), Code(100), Code(3), Code(2), Code(102), Code(1), Code(101), Code(4)]

  /** `SYMBOLS_3D`: the same eight symbols by name. */
  const Symbols3D: seq<Symbol> := [Named("circle"), Named("circle-open"), Named("cross"), Named("diamond"),
                                   Named("diamond-open"), Named("square"), Named("square-open"), Named("x")]

  /** The symbol list of a dimensionality: the codes for 2, the names for anything else. */
  function SymbolsFor(dimensionality: int): (s: seq<Symbol>)
    ensures |s| == 8
  {
    if dimensionality == 2 then Symbols2D else Symbols3D
  }

  /** `gen_symbol_map`: class `i` gets symbol `i % 8`, written in class order. */
  function GenSymbolMap(classes: seq<string>, dimensionality: int): Dicts.Dict<string, Symbol>
  {
    Dicts.FromEntries(Dicts.ZipCycle(classes, SymbolsFor(dimensionality)))
  }

  /** The position of a symbol in the list of its kind. */
  function SymbolPosition(s: Symbol): int
  {
    match s
    case Code(c) =>
      if c == 0 then 0 else if c == 100 then 1 else if c == 3 then 2 else if c == 2 then 3
      else if c == 102 then 4 else if c == 1 then 5 else if c == 101 then 6 else if c == 4 then 7 else -1
    case Named(n) =>
      if n == "circle" then 0 else if n == "circle-open" then 1 else if n == "cross" then 2
      else if n == "diamond" then 3 else if n == "diamond-open" then 4 else if n == "square" then 5
      else if n == "square-open" then 6 else if n == "x" then 7 else -1
  }

  /** Both lists hold eight different symbols, codes for 2D and names otherwise. */
  lemma SymbolListsSpec(dimensionality: int)
    ensures Seqs.NoDup(SymbolsFor(dimensionality))
    ensures forall i :: 0 <= i < 8 ==> (SymbolsFor(dimensionality)[i].Code? <==> dimensionality == 2)
  {
    var s := SymbolsFor(dimensionality);
    forall i | 0 <= i < 8 ensures SymbolPosition(s[i]) == i {
    }
  }

  /**
   * The map's keys are the distinct classes in order of first appearance; a
   * class gets the symbol of its last position modulo eight, which is an
   * integer code exactly for 2D plots; anything else is missing.
   */
  lemma GenSymbolMapSpec(classes: seq<string>, dimensionality: int)
    ensures Dicts.Keys(GenSymbolMap(classes, dimensionality)) == Seqs.Distinct(classes)
    ensures forall c :: c in classes ==>
      Dicts.Get(GenSymbolMap(classes, dimensionality), c) == Some(SymbolsFor(dimensionality)[Dicts.LastIndex(classes, c) % 8])
    ensures forall c :: c !in classes ==> Dicts.Get(GenSymbolMap(classes, dimensionality), c) == None
    ensures forall c :: c in classes ==> (Dicts.Get(GenSymbolMap(classes, dimensionality), c).value.Code? <==> dimensionality == 2)
  {
    var syms := SymbolsFor(dimensionality);
    Dicts.ZipCycleKeys(classes, syms);
    forall c ensures Dicts.Get(GenSymbolMap(classes, dimensionality), c) ==
      if c in classes then Some(syms[Dicts.LastIndex(classes, c) % 8]) else None
    {
      Dicts.ZipCycleGet(classes, syms, c);
    }
    SymbolListsSpec(dimensionality);
  }

  /**
   * With distinct classes, class `i` gets symbol `i % 8`, so classes eight
   * places apart share a symbol and classes fewer than eight apart do not.
   */
  lemma SymbolsCycle(classes: seq<string>, dimensionality: int)
    requires Seqs.NoDup(classes)
    ensures forall i :: 0 <= i < |classes| ==>
      Dicts.Get(GenSymbolMap(classes, dimensionality), classes[i]) == Some(SymbolsFor(dimensionality)[i % 8])
    ensures forall i :: 0 <= i < |classes| - 8 ==>
      Dicts.Get(GenSymbolMap(classes, dimensionality), classes[i]) == Dicts.Get(GenSymbolMap(classes, dimensionality), classes[i + 8])
    ensures forall i, j :: 0 <= i < j < |classes| && j - i < 8 ==>
      Dicts.Get(GenSymbolMap(classes, dimensionality), classes[i]) != Dicts.Get(GenSymbolMap(classes, dimensionality), classes[j])
  {
    var syms := SymbolsFor(dimensionality);
    var m := GenSymbolMap(classes, dimensionality);
    Dicts.ZipCycleDistinct(classes, syms);
    SymbolListsSpec(dimensionality);
    forall i | 0 <= i < |classes| - 8 ensures Dicts.Get(m, classes[i]) == Dicts.Get(m, classes[i + 8]) {
      ModCycle(i);
    }
    forall i, j | 0 <= i < j < |classes| && j - i < 8 ensures Dicts.Get(m, classes[i]) != Dicts.Get(m, classes[j]) {
      ModDistinct(i, j);
      assert syms[i % 8] != syms[j % 8];
    }
  }

  lemma ModCycle(i: nat)
    ensures (i + 8) % 8 == i % 8
  {
  }

  lemma ModDistinct(i: nat, j: nat)
    requires i < j < i + 8
    ensures i % 8 != j % 8
  {
  }

  /** A class listed twice takes the symbol of its later position. */
  lemma LaterPositionWins(classes: seq<string>, dimensionality: int, i: nat, j: nat)
    requires i < j < |classes| && classes[i] == classes[j]
    requires forall k :: j < k < |classes| ==> classes[k] != classes[j]
    ensures Dicts.Get(GenSymbolMap(classes, dimensionality), classes[i]) == Some(SymbolsFor(dimensionality)[j % 8])
  {
    var c := classes[j];
    Dicts.ZipCycleGet(classes, SymbolsFor(dimensionality), c);
    assert Dicts.LastIndex(classes, c) == j;
  }
}
