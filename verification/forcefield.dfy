/**
 * Atoms, bonded terms and the force-field parameter database.
 *
 * An atom or bonded term starts untyped and becomes typed when `setpar` copies
 * a force-field record into it; the optional parts of the datatypes below stand
 * for the attributes that exist only after that.
 */
module ForceField {
  import opened Wrappers
  import opened Names
  import Elements

  /** The ways a run aborts (sys.exit, or an uncaught Python exception). */
  datatype Error =
    | UnknownPotential(pot: string)                    // seteqval on a kind other than harm/cons
    | MissingParameter                                 // indexing past the end of a parameter list
    | IndexOutOfRange                                  // a term's atom index outside the atom list
    | MissingAtomTypes(names: seq<string>)             // atoms without a force-field record
    | MissingBondTypes(names: seq<string>)             // bonds without a force-field record
    | DuplicateDihedral(name: string)                  // the duplicate-dihedral warning names an unbound variable
    | IncompatiblePotentials(i: string, j: string)     // vdw pair of different potential kinds
    | ParameterLengthMismatch(i: string, j: string)    // vdw pair of different parameter-list lengths
    | MathDomain                                       // the square root of a negative number

  /** Non-bonded parameters set by `atom.setpar`: charge, potential kind, parameters. */
  datatype NonBonded = NonBonded(q: real, pot: string, par: seq<real>)

  /**
   * An atom of a molecule: name, mass, type index (-1 until assigned), force-field
   * type label (set by connectivity or setpar) and non-bonded parameters (set by setpar).
   */
  datatype Atom = Atom(name: string, m: real, ityp: int, typ: Option<string>, nb: Option<NonBonded>)

  /** Parameters set by a bonded term's `setpar`: the record's labels, potential kind, parameters. */
  datatype TermPar = TermPar(labels: seq<string>, pot: string, par: seq<real>)

  /**
   * A bond, angle, dihedral or improper: its 2, 3 or 4 atom indices, its name
   * ("" until named), its type index (-1 until assigned) and its parameters.
   */
  datatype Term = Term(at: seq<int>, name: string, ityp: int, par: Option<TermPar>)

  /** An atom record of the force field: atom name, type label, mass, charge, potential, parameters. */
  datatype AtomRec = AtomRec(name: string, typ: string, m: real, q: real, pot: string, par: seq<real>)

  /** A bonded-term record of the force field: type labels, potential kind, parameters. */
  datatype Rec = Rec(labels: seq<string>, pot: string, par: seq<real>)

  datatype Field = Field(atom: seq<AtomRec>, bond: seq<Rec>, angle: seq<Rec>, dihed: seq<Rec>, dimpr: seq<Rec>)

  /** `atom(name, m)`: a zero mass is replaced by the element's atomic weight. */
  function NewAtom(name: string, m: real): (a: Atom)
    requires m == 0.0 ==> |name| > 0
    ensures a.name == name && a.ityp == -1 && a.typ.None? && a.nb.None?
    ensures m != 0.0 ==> a.m == m
    ensures m == 0.0 ==> a.m == Elements.AtomicWeight(name)
  {
    Atom(name, if m == 0.0 then Elements.AtomicWeight(name) else m, -1, None, None)
  }

  /** Every term of the list is over n atoms. */
  predicate Arity(ts: seq<Term>, n: nat)
  {
    forall k :: 0 <= k < |ts| ==> |ts[k].at| == n
  }

  /** `bond(i, j)`, `angle(i, j, k)`, `dihed(i, j, k, l)`: an unnamed, untyped term. */
  function NewTerm(at: seq<int>): Term
  {
    Term(at, "", -1, None)
  }

  /** `at.setpar(ffat.type, ffat.q, ffat.pot, ffat.par)` followed by `at.m = ffat.m`. */
  function AtomSetPar(a: Atom, r: AtomRec): Atom
  {
    a.(m := r.m, typ := Some(r.typ), nb := Some(NonBonded(r.q, r.pot, r.par)))
  }

  /** A term's `setpar`: its name becomes the record's own labels joined in the record's order. */
  function TermSetPar(t: Term, r: Rec): Term
  {
    t.(name := Join(r.labels), par := Some(TermPar(r.labels, r.pot, r.par)))
  }

  // ---- equilibrium values and tolerance checks

  /** `seteqval`: the first parameter for harmonic or constrained terms; any other kind aborts. */
  function EqVal(r: Rec): (e: Result<real, Error>)
    ensures e.Success? <==> (r.pot == "harm" || r.pot == "cons") && |r.par| > 0
    ensures e.Success? ==> e.value == r.par[0]
    ensures r.pot != "harm" && r.pot != "cons" ==> e == Failure(UnknownPotential(r.pot))
  {
    if r.pot == "harm" || r.pot == "cons" then
      if |r.par| > 0 then Success(r.par[0]) else Failure(MissingParameter)
    else Failure(UnknownPotential(r.pot))
  }

  const BondTol: real := 0.25    // Angstrom
  const AngleTol: real := 15.0   // degrees

  function Abs(x: real): real
  {
    if x < 0.0 then -x else x
  }

  /** `bond.checkval`: the observed length is strictly within 0.25 of the equilibrium length. */
  function BondCheckVal(r: Rec, obs: real): (ok: bool)
    requires EqVal(r).Success?
    ensures ok <==> EqVal(r).value - BondTol < obs < EqVal(r).value + BondTol
  {
    Abs(obs - EqVal(r).value) < BondTol
  }

  /** `angle.checkval`: the observed angle is strictly within 15 degrees of the equilibrium angle. */
  function AngleCheckVal(r: Rec, obs: real): (ok: bool)
    requires EqVal(r).Success?
    ensures ok <==> EqVal(r).value - AngleTol < obs < EqVal(r).value + AngleTol
  {
    Abs(obs - EqVal(r).value) < AngleTol
  }

  /** Every record of the list has its equilibrium value set. */
  predicate EqValsSet(recs: seq<Rec>)
  {
    forall q :: 0 <= q < |recs| ==> EqVal(recs[q]).Success?
  }

  /** Every bond and angle record has its equilibrium value: what loading a force field guarantees. */
  predicate Ready(ff: Field)
  {
    EqValsSet(ff.bond) && EqValsSet(ff.angle)
  }

  /**
   * The end of loading a force field: `seteqval` on every bond record, then on
   * every angle record; the first failure aborts with that record's error.
   */
  method SetEqVals(ff: Field) returns (res: Outcome<Error>)
    ensures res.Pass? <==> Ready(ff)
    ensures res.Fail? ==>
      (exists q :: && 0 <= q < |ff.bond| && EqVal(ff.bond[q]) == Failure(res.error)
                   && EqValsSet(ff.bond[..q])) ||
      (EqValsSet(ff.bond) &&
       exists q :: && 0 <= q < |ff.angle| && EqVal(ff.angle[q]) == Failure(res.error)
                   && EqValsSet(ff.angle[..q]))
  {
    for q := 0 to |ff.bond|
      invariant forall p :: 0 <= p < q ==> EqVal(ff.bond[p]).Success?
    {
      var e := EqVal(ff.bond[q]);
      if e.Failure? {
        return Fail(e.error);
      }
    }
    for q := 0 to |ff.angle|
      invariant forall p :: 0 <= p < q ==> EqVal(ff.angle[p]).Success?
    {
      var e := EqVal(ff.angle[q]);
      if e.Failure? {
        return Fail(e.error);
      }
    }
    return Pass;
  }

  // ---- record lookup: every record that matches is applied in turn, so the last one applied wins

  /** Index of the last of the first m atom records named `name`. */
  function LastAtomRec(recs: seq<AtomRec>, name: string, m: nat): (r: Option<nat>)
    requires m <= |recs|
    ensures r.Some? ==> r.value < m && recs[r.value].name == name
    ensures r.Some? ==> forall q :: r.value < q < m ==> recs[q].name != name
    ensures r.None? <==> forall q :: 0 <= q < m ==> recs[q].name != name
  {
    if m == 0 then None
    else if recs[m - 1].name == name then Some(m - 1)
    else LastAtomRec(recs, name, m - 1)
  }

  /**
   * The name a bonded term carries after the first m records have been tried.
   * It starts as the name built from its atoms' types; each record that
   * matches the current name is applied, and `setpar` renames the term after
   * that record's own labels, so the next record is compared with the new name.
   */
  function NameAfter(recs: seq<Rec>, name: string, m: nat): string
    requires m <= |recs|
  {
    if m == 0 then name
    else
      var cur := NameAfter(recs, name, m - 1);
      if NameMatches(cur, recs[m - 1].labels) then Join(recs[m - 1].labels) else cur
  }

  /** Record q is applied to a term first named `name`: it matches the name the term carries when its turn comes. */
  predicate Applies(recs: seq<Rec>, name: string, q: nat)
    requires q < |recs|
  {
    NameMatches(NameAfter(recs, name, q), recs[q].labels)
  }

  /** Index of the last of the first m bonded records applied to a term first named `name`. */
  function LastRec(recs: seq<Rec>, name: string, m: nat): (r: Option<nat>)
    requires m <= |recs|
    ensures r.Some? ==> r.value < m && Applies(recs, name, r.value)
    ensures r.Some? ==> forall q :: r.value < q < m ==> !Applies(recs, name, q)
    ensures r.None? <==> forall q :: 0 <= q < m ==> !Applies(recs, name, q)
  {
    if m == 0 then None
    else if Applies(recs, name, m - 1) then Some(m - 1)
    else LastRec(recs, name, m - 1)
  }

  /** Number of the first m bonded records applied to a term first named `name`. */
  function MatchCount(recs: seq<Rec>, name: string, m: nat): (c: nat)
    requires m <= |recs|
    ensures c <= m
    ensures c == 0 <==> LastRec(recs, name, m).None?
  {
    if m == 0 then 0
    else MatchCount(recs, name, m - 1) + if Applies(recs, name, m - 1) then 1 else 0
  }

  /**
   * The term is renamed only by an applied record: its name is the original
   * one until a record applies, and that of the last applied record after.
   */
  lemma {:induction false} NameAfterLast(recs: seq<Rec>, name: string, m: nat)
    requires m <= |recs|
    ensures NameAfter(recs, name, m) == match LastRec(recs, name, m)
      case None => name
      case Some(q) => Join(recs[q].labels)
  {
    if m > 0 {
      NameAfterLast(recs, name, m - 1);
    }
  }

  /**
   * Until some record applies, the term keeps its original name; so a record
   * applies at all exactly when some record matches the original name, and
   * the first one applied is the first one that does.
   */
  lemma {:induction false} NoneApplied(recs: seq<Rec>, name: string, m: nat)
    requires m <= |recs|
    ensures LastRec(recs, name, m).None? <==> forall q :: 0 <= q < m ==> !NameMatches(name, recs[q].labels)
    ensures LastRec(recs, name, m).None? ==> NameAfter(recs, name, m) == name
  {
    if m > 0 {
      NoneApplied(recs, name, m - 1);
    }
  }

  /**
   * With dash-free labels of the term's arity, a rename leaves the name equal
   * to the original labels forwards or reversed, so each record applies
   * exactly when it matches the original name.
   */
  lemma {:induction false} AppliesIffMatches(recs: seq<Rec>, xs: seq<string>, m: nat)
    requires m <= |recs| && AllDashFree(xs)
    requires forall q :: 0 <= q < |recs| ==> |recs[q].labels| == |xs| && AllDashFree(recs[q].labels)
    ensures NameAfter(recs, Join(xs), m) == Join(xs) || NameAfter(recs, Join(xs), m) == Join(Reverse(xs))
    ensures forall q {:trigger Applies(recs, Join(xs), q)} :: 0 <= q < m ==>
      (Applies(recs, Join(xs), q) <==> NameMatches(Join(xs), recs[q].labels))
  {
    if m > 0 {
      AppliesIffMatches(recs, xs, m - 1);
      var cur := NameAfter(recs, Join(xs), m - 1);
      RenameStep(if cur == Join(xs) then xs else Reverse(xs), xs, recs[m - 1].labels);
    }
  }

  /**
   * One record against a name joined from the original labels or their
   * reverse: it matches exactly when it matches the original name, and the
   * rename it causes again gives the original labels or their reverse.
   */
  lemma RenameStep(ys: seq<string>, xs: seq<string>, l: seq<string>)
    requires ys == xs || ys == Reverse(xs)
    requires |l| == |xs| && AllDashFree(xs) && AllDashFree(l)
    ensures NameMatches(Join(ys), l) <==> NameMatches(Join(xs), l)
    ensures NameMatches(Join(ys), l) ==> Join(l) == Join(xs) || Join(l) == Join(Reverse(xs))
  {
    var rx, rl := Reverse(xs), Reverse(l);
    ReverseDashFree(xs);
    ReverseDashFree(l);
    ReverseReverse(xs);
    ReverseReverse(l);
    MatchReversed(xs, l);
    if Join(ys) == Join(l) {
      JoinInjective(ys, l);
    } else if Join(ys) == Join(rl) {
      JoinInjective(ys, rl);
    }
  }

  /**
   * The rename decides what later records see: a term first named "C-A-B" takes the name "A-B-C"
   * from a record labelled A-B, C, and then a record labelled A, B-C is applied too, though it does
   * not match the first name.
   */
  lemma RenameEnablesLaterMatch()
    ensures var recs := [Rec(["A-B", "C"], "harm", []), Rec(["A", "B-C"], "harm", [])];
      Applies(recs, "C-A-B", 0) && Applies(recs, "C-A-B", 1) && !NameMatches("C-A-B", recs[1].labels)
  {
    var recs := [Rec(["A-B", "C"], "harm", []), Rec(["A", "B-C"], "harm", [])];
    assert Reverse(["A-B", "C"]) == ["C", "A-B"];
    assert Join(["C", "A-B"]) == "C-A-B";
    assert Join(["A-B", "C"]) == "A-B-C";
    assert NameAfter(recs, "C-A-B", 1) == "A-B-C";
    assert Join(["A", "B-C"]) == "A-B-C";
    assert Reverse(["A", "B-C"]) == ["B-C", "A"];
    assert Join(["B-C", "A"]) == "B-C-A";
    assert "C-A-B" != "A-B-C" by { assert "C-A-B"[0] != "A-B-C"[0]; }
    assert "C-A-B" != "B-C-A" by { assert "C-A-B"[0] != "B-C-A"[0]; }
  }

  /** Two applied records among the first m: their positions are told apart by the count. */
  lemma {:induction false} TwoMatches(recs: seq<Rec>, name: string, m: nat, p: nat, q: nat)
    requires p < q < m <= |recs|
    requires Applies(recs, name, p) && Applies(recs, name, q)
    ensures MatchCount(recs, name, m) >= 2
  {
    if q < m - 1 {
      TwoMatches(recs, name, m - 1, p, q);
    } else {
      assert LastRec(recs, name, m - 1).Some?;
    }
  }

  /** At least two applied records means two different applied positions. */
  lemma {:induction false} CountTwoMeansTwo(recs: seq<Rec>, name: string, m: nat)
    requires m <= |recs| && MatchCount(recs, name, m) >= 2
    ensures exists p, q :: 0 <= p < q < m && Applies(recs, name, p) && Applies(recs, name, q)
  {
    if !Applies(recs, name, m - 1) {
      CountTwoMeansTwo(recs, name, m - 1);
    } else {
      var p := LastRec(recs, name, m - 1).value;
      assert Applies(recs, name, p) && Applies(recs, name, m - 1);
    }
  }

}
