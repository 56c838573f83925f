/**
 * The element table: atomic weights keyed by element symbol, and the lookup of
 * an atom name's element by its one- or two-letter prefix.
 */
module Elements {

  const AtomicWt: map<string, real> := map[
    "H" := 1.008, "Li" := 6.941, "B" := 10.811, "C" := 12.011,
    "N" := 14.006, "O" := 15.999, "F" := 18.998, "Ne" := 20.180,
    "Na" := 22.990, "Mg" := 24.305, "Al" := 26.982, "Si" := 28.086,
    "P" := 30.974, "S" := 32.065, "Cl" := 35.453, "Ar" := 39.948,
    "K" := 39.098, "Ca" := 40.078, "Fe" := 55.845, "Zn" := 65.38,
    "Br" := 79.904, "Mo" := 95.96, "I" := 126.904]

  /** The slice name[:2]: the first two characters, or the whole name when shorter. */
  function Prefix2(name: string): (p: string)
    ensures p <= name && |p| == if |name| < 2 then |name| else 2
  {
    if |name| < 2 then name else name[..2]
  }

  /** Element symbol of an atom name: the two-letter prefix is tried before the one-letter one; '' when unknown. */
  function AtomicSymbol(name: string): (s: string)
    requires |name| > 0
    ensures s == "" || (s in AtomicWt && s <= name && 1 <= |s| <= 2)
    ensures Prefix2(name) in AtomicWt ==> s == Prefix2(name)
    ensures s == "" <==> Prefix2(name) !in AtomicWt && name[..1] !in AtomicWt
  {
    if Prefix2(name) in AtomicWt then Prefix2(name)
    else if name[..1] in AtomicWt then name[..1]
    else ""
  }

  /**
   * Atomic weight of an atom name: the table weight of its element symbol; an
   * unknown element weighs 0.0 (the source warns). An empty name has no first
   * character to try (an IndexError in the source).
   */
  function AtomicWeight(name: string): (w: real)
    requires |name| > 0
    ensures w == if AtomicSymbol(name) == "" then 0.0 else AtomicWt[AtomicSymbol(name)]
    ensures w >= 0.0
  {
    if Prefix2(name) in AtomicWt then AtomicWt[Prefix2(name)]
    else if name[..1] in AtomicWt then AtomicWt[name[..1]]
    else 0.0
  }

  /** Two-letter symbols win over their first letter: 'Cl1' is chlorine, not carbon. */
  lemma TwoLetterPrecedence()
    ensures AtomicSymbol("Cl1") == "Cl" && AtomicWeight("Cl1") == 35.453
    ensures AtomicSymbol("C1") == "C" && AtomicWeight("C1") == 12.011
    ensures AtomicSymbol("Xx") == "" && AtomicWeight("Xx") == 0.0
  {
    assert Prefix2("Cl1") == "Cl";
    assert Prefix2("C1") == "C1";
    assert "C1" !in AtomicWt;
    assert "C1"[..1] == "C";
    assert Prefix2("Xx") == "Xx";
    assert "Xx"[..1] == "X";
  }
}
