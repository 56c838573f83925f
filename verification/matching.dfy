/**
 * Assigning force-field records to a molecule's atoms and bonded terms
 * (`mol.setff`). Each piece is a function over the molecule's lists that
 * follows the order of the source's loops: atoms first, then bonds, then the
 * angles, dihedrals and impropers, each of the last three pruned of the terms
 * the force field does not cover.
 */
module Matching {
  import opened Wrappers
  import opened Names
  import opened ForceField

  // ---------------------------------------------------------------- indexing

  /** Python list indexing: a negative index counts from the end; beyond that it raises IndexError. */
  function PyIndex(n: nat, i: int): (r: Option<nat>)
    ensures r.Some? <==> 0 <= i + n && i < n
    ensures r.Some? ==> r.value < n && r.value % n == i % n
  {
    if 0 <= i < n then Some(i) else if 0 <= i + n && i < 0 then Some(i + n) else None
  }

  predicate InRange(n: nat, at: seq<int>)
  {
    forall k :: 0 <= k < |at| ==> 0 <= at[k] + n && at[k] < n
  }

  /** The atom positions a term's indices denote. */
  function Resolve(n: nat, at: seq<int>): (ix: seq<nat>)
    requires InRange(n, at)
    ensures |ix| == |at|
    ensures forall k :: 0 <= k < |at| ==> PyIndex(n, at[k]) == Some(ix[k])
  {
    seq(|at|, k requires 0 <= k < |at| => PyIndex(n, at[k]).value)
  }

  /** The types of a term's atoms, in the term's order. */
  function TypesOf(types: seq<string>, at: seq<int>): (r: seq<string>)
    requires InRange(|types|, at)
    ensures |r| == |at|
  {
    var ix := Resolve(|types|, at);
    seq(|at|, k requires 0 <= k < |at| => types[ix[k]])
  }

  /** A term's name as the source formats it: its atoms' types joined with '-'. */
  function TermName(types: seq<string>, at: seq<int>): string
    requires InRange(|types|, at)
  {
    Join(TypesOf(types, at))
  }

  /** Terms over the same atoms read in opposite directions get reversed type lists. */
  lemma TypesOfReversed(types: seq<string>, at: seq<int>, ta: seq<int>)
    requires InRange(|types|, at) && |ta| == |at|
    requires forall k :: 0 <= k < |at| ==> ta[k] == at[|at| - 1 - k]
    ensures InRange(|types|, ta) && TypesOf(types, ta) == Reverse(TypesOf(types, at))
  {
    ReverseAt(TypesOf(types, at));
  }

  // ---------------------------------------------------------------- atoms

  /** An atom after every record of its name has been applied in turn: the last one's values remain. */
  function TypedAtom(a: Atom, recs: seq<AtomRec>): Atom
  {
    match LastAtomRec(recs, a.name, |recs|)
    case None => a
    case Some(q) => AtomSetPar(a, recs[q])
  }

  /** Names of the first n atoms that no record names, one entry per such atom, in atom order. */
  function Untyped(atoms: seq<Atom>, recs: seq<AtomRec>, n: nat): (r: seq<string>)
    requires n <= |atoms|
    ensures |r| <= n
    ensures forall s :: s in r <==>
      exists k :: 0 <= k < n && atoms[k].name == s && LastAtomRec(recs, s, |recs|).None?
  {
    if n == 0 then []
    else Untyped(atoms, recs, n - 1) + if LastAtomRec(recs, atoms[n - 1].name, |recs|).None? then [atoms[n - 1].name] else []
  }

  /** The atom loop of `setff`: every atom typed by its records, or the names of the atoms without one. */
  function AtomPhase(atoms: seq<Atom>, recs: seq<AtomRec>): (r: Result<seq<Atom>, Error>)
    ensures r.Success? ==> |r.value| == |atoms| && AllTyped(r.value)
  {
    var miss := Untyped(atoms, recs, |atoms|);
    if miss == [] then
      assert forall k :: 0 <= k < |atoms| ==> atoms[k].name !in miss;
      Success(seq(|atoms|, k requires 0 <= k < |atoms| => TypedAtom(atoms[k], recs)))
    else Failure(MissingAtomTypes(miss))
  }

  /** Without a force field every atom is its own type, neutral, with zero Lennard-Jones parameters. */
  function DefaultAtom(a: Atom): (d: Atom)
    ensures d.name == a.name && d.m == a.m && d.ityp == a.ityp
    ensures d.typ == Some(a.name) && d.nb == Some(NonBonded(0.0, "lj", [0.0, 0.0]))
  {
    a.(typ := Some(a.name), nb := Some(NonBonded(0.0, "lj", [0.0, 0.0])))
  }

  predicate AllTyped(atoms: seq<Atom>)
  {
    forall k :: 0 <= k < |atoms| ==> atoms[k].typ.Some?
  }

  /** The atom loop of `setff` without a force field: every atom typed by its own name. */
  function Defaults(atoms: seq<Atom>): (r: seq<Atom>)
    ensures |r| == |atoms| && AllTyped(r)
    ensures forall k :: 0 <= k < |atoms| ==> r[k] == DefaultAtom(atoms[k])
  {
    seq(|atoms|, k requires 0 <= k < |atoms| => DefaultAtom(atoms[k]))
  }

  /** The type labels of typed atoms, by atom position. */
  function Types(atoms: seq<Atom>): (types: seq<string>)
    requires AllTyped(atoms)
    ensures |types| == |atoms| && forall k :: 0 <= k < |atoms| ==> Some(types[k]) == atoms[k].typ
  {
    seq(|atoms|, k requires 0 <= k < |atoms| => atoms[k].typ.value)
  }

  /** The atom loop's outcome, given the list of typed atoms it builds. */
  lemma AtomPhaseOf(atoms: seq<Atom>, recs: seq<AtomRec>, typed: seq<Atom>)
    requires |typed| == |atoms| && forall k :: 0 <= k < |atoms| ==> typed[k] == TypedAtom(atoms[k], recs)
    ensures var miss := Untyped(atoms, recs, |atoms|);
      AtomPhase(atoms, recs) == if miss == [] then Success(typed) else Failure(MissingAtomTypes(miss))
  {
    if Untyped(atoms, recs, |atoms|) == [] {
      assert typed == AtomPhase(atoms, recs).value;
    }
  }

  /** The atom loop succeeds exactly when every atom's name has a record. */
  lemma AtomPhaseOk(atoms: seq<Atom>, recs: seq<AtomRec>)
    ensures AtomPhase(atoms, recs).Success? <==>
      forall k :: 0 <= k < |atoms| ==> exists q :: 0 <= q < |recs| && recs[q].name == atoms[k].name
  {
    var miss := Untyped(atoms, recs, |atoms|);
    if miss == [] {
      forall k | 0 <= k < |atoms|
        ensures exists q :: 0 <= q < |recs| && recs[q].name == atoms[k].name
      {
        assert atoms[k].name !in miss;
        assert LastAtomRec(recs, atoms[k].name, |recs|).Some?;
      }
    } else {
      assert miss[0] in miss;
      var k :| 0 <= k < |atoms| && atoms[k].name == miss[0] && LastAtomRec(recs, miss[0], |recs|).None?;
      assert !exists q :: 0 <= q < |recs| && recs[q].name == atoms[k].name;
    }
  }

  /**
   * After the atom loop every atom is typed, and carries the values of the LAST
   * record of its name, whatever the earlier records of that name said.
   */
  lemma AtomPhaseLastWins(atoms: seq<Atom>, recs: seq<AtomRec>, k: nat, q: nat)
    requires AtomPhase(atoms, recs).Success?
    requires k < |atoms| && q < |recs| && recs[q].name == atoms[k].name
    requires forall p :: q < p < |recs| ==> recs[p].name != atoms[k].name
    ensures |AtomPhase(atoms, recs).value| == |atoms| && AllTyped(AtomPhase(atoms, recs).value)
    ensures AtomPhase(atoms, recs).value[k] == AtomSetPar(atoms[k], recs[q])
  {
    var r := LastAtomRec(recs, atoms[k].name, |recs|);
    assert r == Some(q);
  }

  /** A failing atom loop reports exactly the names that no record carries. */
  lemma AtomPhaseMissing(atoms: seq<Atom>, recs: seq<AtomRec>)
    requires AtomPhase(atoms, recs).Failure?
    ensures AtomPhase(atoms, recs).error.MissingAtomTypes?
    ensures forall s :: s in AtomPhase(atoms, recs).error.names <==>
      exists k :: 0 <= k < |atoms| && atoms[k].name == s && forall q :: 0 <= q < |recs| ==> recs[q].name != s
  {
  }

  // ---------------------------------------------------------------- bonds

  /** Positions among the first m records applied to a bond first named `name` whose check rejects the distance r. */
  function FailingMatches(recs: seq<Rec>, name: string, r: real, m: nat): seq<nat>
    requires m <= |recs| && EqValsSet(recs)
  {
    if m == 0 then []
    else
      var last := if Applies(recs, name, m - 1) && !BondCheckVal(recs[m - 1], r) then [m - 1] else [];
      FailingMatches(recs, name, r, m - 1) + last
  }

  lemma {:induction false} FailingMatchesIff(recs: seq<Rec>, name: string, r: real, m: nat)
    requires m <= |recs| && EqValsSet(recs)
    ensures forall q {:trigger q in FailingMatches(recs, name, r, m)} {:trigger Applies(recs, name, q)} ::
      q in FailingMatches(recs, name, r, m) <==>
      0 <= q < m && Applies(recs, name, q) && !BondCheckVal(recs[q], r)
  {
    if m > 0 {
      FailingMatchesIff(recs, name, r, m - 1);
      var prev := FailingMatches(recs, name, r, m - 1);
      var hit := Applies(recs, name, m - 1) && !BondCheckVal(recs[m - 1], r);
      assert FailingMatches(recs, name, r, m) == prev + if hit then [m - 1] else [];
      forall q
        ensures q in FailingMatches(recs, name, r, m) <==> 0 <= q < m && Applies(recs, name, q) && !BondCheckVal(recs[q], r)
      {
        assert q in FailingMatches(recs, name, r, m) <==> q in prev || (hit && q == m - 1);
        if q != m - 1 {
          assert q in prev <==> 0 <= q < m - 1 && Applies(recs, name, q) && !BondCheckVal(recs[q], r);
        }
      }
    }
  }

  /**
   * A term named from its atoms' types, with the last applied record's
   * parameters: `setpar` renames it in that record's own label order.
   */
  function TypedTerm(t: Term, recs: seq<Rec>, name: string): Term
  {
    match LastRec(recs, name, |recs|)
    case None => t.(name := name)
    case Some(q) => TermSetPar(t, recs[q])
  }

  /** The distance the bond's atoms are observed at. */
  function BondLength(types: seq<string>, t: Term, dist: (int, int) -> real): real
    requires |t.at| == 2 && InRange(|types|, t.at)
  {
    var ix := Resolve(|types|, t.at);
    dist(ix[0], ix[1])
  }

  /** The warnings for bond k: one per record position in fs. */
  function Tagged(k: nat, fs: seq<nat>): (w: seq<(nat, nat)>)
    ensures |w| == |fs|
  {
    seq(|fs|, i requires 0 <= i < |fs| => (k, fs[i]))
  }

  lemma TaggedIff(k: nat, fs: seq<nat>)
    ensures forall a, b :: (a, b) in Tagged(k, fs) <==> a == k && b in fs
  {
    var w := Tagged(k, fs);
    forall a, b | (a, b) in w
      ensures a == k && b in fs
    {
      var i :| 0 <= i < |w| && w[i] == (a, b);
    }
    forall a, b | a == k && b in fs
      ensures (a, b) in w
    {
      var i :| 0 <= i < |fs| && fs[i] == b;
      assert w[i] == (a, b);
    }
  }

  /** What one pass of the bond loop does to its bond. */
  datatype BondVerdict =
    | BondBadIndex   // an atom index outside the atom list: the run ends
    | BondNamed(term: Term, name: string, unmatched: bool, failing: seq<nat>)
      // the bond named and typed; whether no record matched; the applied records whose check fails

  function JudgeBond(types: seq<string>, t: Term, recs: seq<Rec>, dist: (int, int) -> real): (v: BondVerdict)
    requires |t.at| == 2 && EqValsSet(recs)
    ensures v.BondBadIndex? <==> !InRange(|types|, t.at)
  {
    if !InRange(|types|, t.at) then BondBadIndex
    else
      var name := TermName(types, t.at);
      BondNamed(TypedTerm(t, recs, name), name, LastRec(recs, name, |recs|).None?,
                FailingMatches(recs, name, BondLength(types, t, dist), |recs|))
  }

  function BondVerdicts(types: seq<string>, bonds: seq<Term>, recs: seq<Rec>, dist: (int, int) -> real)
    : (bvs: seq<BondVerdict>)
    requires (forall k :: 0 <= k < |bonds| ==> |bonds[k].at| == 2) && EqValsSet(recs)
    ensures |bvs| == |bonds| && forall k :: 0 <= k < |bonds| ==> bvs[k] == JudgeBond(types, bonds[k], recs, dist)
  {
    seq(|bonds|, k requires 0 <= k < |bonds| => JudgeBond(types, bonds[k], recs, dist))
  }

  /** What the bond loop has produced: the named bonds, the unmatched names, and (bond, record) warnings. */
  datatype Bonding = Bonding(bonds: seq<Term>, missing: seq<string>, warn: seq<(nat, nat)>)

  /** The bond loop over the first p bonds, given each bond's verdict; an index error ends the run at once. */
  function BondsUpTo(bvs: seq<BondVerdict>, p: nat): (b: Result<Bonding, Error>)
    requires p <= |bvs|
    ensures b.Success? ==> |b.value.bonds| == p
    ensures b.Failure? ==> b.error == IndexOutOfRange
  {
    if p == 0 then Success(Bonding([], [], []))
    else
      var prev := BondsUpTo(bvs, p - 1);
      if prev.Failure? then prev
      else
        match bvs[p - 1]
        case BondBadIndex => Failure(IndexOutOfRange)
        case BondNamed(t, name, unmatched, fs) =>
          Success(Bonding(
            prev.value.bonds + [t],
            prev.value.missing + (if unmatched then [name] else []),
            prev.value.warn + Tagged(p - 1, fs)))
  }

  /** One more bond whose atoms exist: it joins the list, its name is reported if unmatched, its warnings added. */
  lemma BondsUpToNext(bvs: seq<BondVerdict>, p: nat)
    requires p < |bvs| && BondsUpTo(bvs, p).Success? && bvs[p].BondNamed?
    ensures var prev := BondsUpTo(bvs, p).value;
      var v := bvs[p];
      BondsUpTo(bvs, p + 1) == Success(Bonding(
        prev.bonds + [v.term],
        prev.missing + (if v.unmatched then [v.name] else []),
        prev.warn + Tagged(p, v.failing)))
  {
  }

  /** Once the loop has ended the run, later bonds change nothing. */
  lemma {:induction false} BondsUpToStaysFailed(bvs: seq<BondVerdict>, p: nat, p2: nat)
    requires p <= p2 <= |bvs| && BondsUpTo(bvs, p).Failure?
    ensures BondsUpTo(bvs, p2) == BondsUpTo(bvs, p)
  {
    if p < p2 {
      BondsUpToStaysFailed(bvs, p, p2 - 1);
    }
  }

  /** The bond loop of `setff`, ending the run when some bond has no record. */
  function BondPhase(types: seq<string>, bonds: seq<Term>, recs: seq<Rec>, dist: (int, int) -> real)
    : (r: Result<Bonding, Error>)
    requires EqValsSet(recs)
    requires forall k :: 0 <= k < |bonds| ==> |bonds[k].at| == 2
    ensures r.Success? ==> r.value.missing == []
    ensures r.Failure? ==> r.error == IndexOutOfRange || r.error.MissingBondTypes?
  {
    var b := BondsUpTo(BondVerdicts(types, bonds, recs, dist), |bonds|);
    if b.Success? && b.value.missing != [] then Failure(MissingBondTypes(b.value.missing)) else b
  }

  lemma {:induction false} BondsUpToOk(bvs: seq<BondVerdict>, p: nat)
    requires p <= |bvs|
    ensures BondsUpTo(bvs, p).Success? <==> forall k :: 0 <= k < p ==> bvs[k].BondNamed?
  {
    if p > 0 {
      BondsUpToOk(bvs, p - 1);
    }
  }

  lemma {:induction false} BondsUpToNamed(bvs: seq<BondVerdict>, p: nat)
    requires p <= |bvs| && BondsUpTo(bvs, p).Success?
    ensures forall k :: 0 <= k < p ==> bvs[k].BondNamed? && BondsUpTo(bvs, p).value.bonds[k] == bvs[k].term
    ensures BondsUpTo(bvs, p).value.missing == [] <==> forall k :: 0 <= k < p ==> !bvs[k].unmatched
    ensures forall k, q :: (k, q) in BondsUpTo(bvs, p).value.warn <==> 0 <= k < p && q in bvs[k].failing
  {
    if p > 0 {
      BondsUpToNamed(bvs, p - 1);
      var prev, v := BondsUpTo(bvs, p - 1).value, bvs[p - 1];
      assert BondsUpTo(bvs, p).value == Bonding(
        prev.bonds + [v.term],
        prev.missing + (if v.unmatched then [v.name] else []),
        prev.warn + Tagged(p - 1, v.failing));
      TaggedIff(p - 1, v.failing);
    }
  }

  /**
   * The bond loop succeeds exactly when every bond's atoms exist and its name
   * has a record. Every record applied to a bond is compared with the name the
   * previous one gave it; the last one applied sets the bond. No bond is
   * dropped: a bond whose distance fails an applied record's check is kept and
   * only warned about, once per such record.
   */
  lemma BondPhaseSpec(types: seq<string>, bonds: seq<Term>, recs: seq<Rec>, dist: (int, int) -> real)
    requires EqValsSet(recs)
    requires forall k :: 0 <= k < |bonds| ==> |bonds[k].at| == 2
    ensures BondPhase(types, bonds, recs, dist).Success? <==>
      forall k :: 0 <= k < |bonds| ==> (InRange(|types|, bonds[k].at) &&
        exists q :: 0 <= q < |recs| && NameMatches(TermName(types, bonds[k].at), recs[q].labels))
    ensures BondPhase(types, bonds, recs, dist).Success? ==>
      var b := BondPhase(types, bonds, recs, dist).value;
      && |b.bonds| == |bonds|
      && (forall k :: 0 <= k < |bonds| ==> (b.bonds[k].at == bonds[k].at &&
           LastRec(recs, TermName(types, bonds[k].at), |recs|).Some? &&
           b.bonds[k] == TermSetPar(bonds[k], recs[LastRec(recs, TermName(types, bonds[k].at), |recs|).value])))
      && (forall k, q {:trigger (k, q) in b.warn} {:trigger Applies(recs, TermName(types, bonds[k].at), q)} ::
            (k, q) in b.warn <==>
            && 0 <= k < |bonds| && 0 <= q < |recs|
            && Applies(recs, TermName(types, bonds[k].at), q)
            && !BondCheckVal(recs[q], BondLength(types, bonds[k], dist)))
  {
    var bvs := BondVerdicts(types, bonds, recs, dist);
    BondsUpToOk(bvs, |bonds|);
    forall k | 0 <= k < |bonds| && InRange(|types|, bonds[k].at) {
      NoneApplied(recs, TermName(types, bonds[k].at), |recs|);
    }
    if BondsUpTo(bvs, |bonds|).Success? {
      BondsUpToNamed(bvs, |bonds|);
      forall k | 0 <= k < |bonds| && InRange(|types|, bonds[k].at) {
        FailingMatchesIff(recs, TermName(types, bonds[k].at), BondLength(types, bonds[k], dist), |recs|);
      }
    }
  }

  // ---------------------------------------------------------------- angles, dihedrals, impropers

  /** What happens to one angle, dihedral or improper when its turn in the loop comes. */
  datatype Verdict =
    | BadIndex                  // an atom index outside the atom list: the run ends
    | Duplicate(name: string)   // a dihedral with two records applied: the run ends
    | Unmatched(name: string)   // no record: the term is removed and its name reported
    | Rejected                  // an angle some applied record rejects: the term is removed
    | Accepted(term: Term)      // the term stays, typed by its last applied record

  /** Every record among the first m applied to an angle first named `name` accepts the observed angle th. */
  predicate AnglePasses(recs: seq<Rec>, name: string, th: real, m: nat)
    requires m <= |recs| && EqValsSet(recs)
  {
    forall q {:trigger Applies(recs, name, q)} :: 0 <= q < m && Applies(recs, name, q) ==> AngleCheckVal(recs[q], th)
  }

  /** The angle's observed value. */
  function AngleValue(types: seq<string>, t: Term, theta: (int, int, int) -> real): real
    requires |t.at| == 3 && InRange(|types|, t.at)
  {
    var ix := Resolve(|types|, t.at);
    theta(ix[0], ix[1], ix[2])
  }

  /** An angle is kept when some record matches and every applied record accepts its observed value. */
  function AngleVerdict(types: seq<string>, t: Term, recs: seq<Rec>, theta: (int, int, int) -> real): (v: Verdict)
    requires |t.at| == 3 && EqValsSet(recs)
    ensures v.BadIndex? <==> !InRange(|types|, t.at)
    ensures !v.Duplicate?
  {
    if !InRange(|types|, t.at) then BadIndex
    else
      var name := TermName(types, t.at);
      match LastRec(recs, name, |recs|)
      case None => Unmatched(name)
      case Some(q) =>
        if AnglePasses(recs, name, AngleValue(types, t, theta), |recs|) then Accepted(TermSetPar(t, recs[q]))
        else Rejected
  }

  /**
   * An angle whose atoms exist is dropped as unmatched exactly when no record
   * matches its name, and rejected exactly when the check of some record
   * applied to it, each compared with the name the previous one gave it,
   * fails on its observed value.
   */
  lemma AngleVerdictMeaning(types: seq<string>, t: Term, recs: seq<Rec>, theta: (int, int, int) -> real)
    requires |t.at| == 3 && EqValsSet(recs) && InRange(|types|, t.at)
    ensures var v := AngleVerdict(types, t, recs, theta);
      var name := TermName(types, t.at);
      && (v.Unmatched? <==> forall q :: 0 <= q < |recs| ==> !NameMatches(name, recs[q].labels))
      && (v.Unmatched? ==> v.name == name)
      && (v.Rejected? <==> exists q {:trigger Applies(recs, name, q)} :: 0 <= q < |recs| && Applies(recs, name, q) &&
                                      !AngleCheckVal(recs[q], AngleValue(types, t, theta)))
  {
    NoneApplied(recs, TermName(types, t.at), |recs|);
  }

  /**
   * A dihedral or improper is kept when some record matches. For dihedrals
   * (dupFatal) a second applied record ends the run: the duplicate warning
   * there formats a variable that is not yet bound.
   */
  function TorsionVerdict(types: seq<string>, t: Term, recs: seq<Rec>, dupFatal: bool): (v: Verdict)
    ensures v.BadIndex? <==> !InRange(|types|, t.at)
    ensures !v.Rejected?
    ensures v.Duplicate? ==> dupFatal
  {
    if !InRange(|types|, t.at) then BadIndex
    else
      var name := TermName(types, t.at);
      if dupFatal && MatchCount(recs, name, |recs|) >= 2 then Duplicate(name)
      else
        match LastRec(recs, name, |recs|)
        case None => Unmatched(name)
        case Some(q) => Accepted(TermSetPar(t, recs[q]))
  }

  /** A dihedral or improper whose atoms exist, not a fatal duplicate, is dropped exactly when no record matches its name. */
  lemma TorsionVerdictMeaning(types: seq<string>, t: Term, recs: seq<Rec>, dupFatal: bool)
    requires InRange(|types|, t.at) && !TorsionVerdict(types, t, recs, dupFatal).Duplicate?
    ensures var v := TorsionVerdict(types, t, recs, dupFatal);
      var name := TermName(types, t.at);
      && (v.Unmatched? <==> forall q :: 0 <= q < |recs| ==> !NameMatches(name, recs[q].labels))
      && (v.Unmatched? ==> v.name == name)
  {
    NoneApplied(recs, TermName(types, t.at), |recs|);
  }

  /**
   * A dihedral ends the run exactly when two different records are applied to
   * it, the second one matching the name the first one gave it.
   */
  lemma DihedralDuplicateIff(types: seq<string>, t: Term, recs: seq<Rec>)
    requires InRange(|types|, t.at)
    ensures TorsionVerdict(types, t, recs, true).Duplicate? <==>
      var name := TermName(types, t.at);
      exists p, q :: 0 <= p < q < |recs| && Applies(recs, name, p) && Applies(recs, name, q)
  {
    var name := TermName(types, t.at);
    if MatchCount(recs, name, |recs|) >= 2 {
      CountTwoMeansTwo(recs, name, |recs|);
    } else if exists p, q :: 0 <= p < q < |recs| && Applies(recs, name, p) && Applies(recs, name, q) {
      var p, q :| 0 <= p < q < |recs| && Applies(recs, name, p) && Applies(recs, name, q);
      TwoMatches(recs, name, |recs|, p, q);
    }
  }

  function AngleVerdicts(types: seq<string>, ts: seq<Term>, recs: seq<Rec>, theta: (int, int, int) -> real)
    : (vs: seq<Verdict>)
    requires Arity(ts, 3) && EqValsSet(recs)
    ensures |vs| == |ts|
  {
    seq(|ts|, k requires 0 <= k < |ts| => AngleVerdict(types, ts[k], recs, theta))
  }

  function TorsionVerdicts(types: seq<string>, ts: seq<Term>, recs: seq<Rec>, dupFatal: bool): (vs: seq<Verdict>)
    ensures |vs| == |ts|
  {
    seq(|ts|, k requires 0 <= k < |ts| => TorsionVerdict(types, ts[k], recs, dupFatal))
  }

  /** The terms that stay, and the names reported missing. */
  datatype Pruned = Pruned(kept: seq<Term>, miss: seq<string>)

  /**
   * The loop over a copy of the term list, given each term's verdict: removed
   * terms leave the list, a missing name is recorded the first time only, and
   * a fatal verdict ends the run.
   */
  function Prune(vs: seq<Verdict>, p: nat): (r: Result<Pruned, Error>)
    requires p <= |vs|
    ensures r.Success? ==> |r.value.kept| <= p && |r.value.miss| <= p
  {
    if p == 0 then Success(Pruned([], []))
    else
      var prev := Prune(vs, p - 1);
      if prev.Failure? then prev
      else
        match vs[p - 1]
        case BadIndex => Failure(IndexOutOfRange)
        case Duplicate(name) => Failure(DuplicateDihedral(name))
        case Unmatched(name) =>
          Success(prev.value.(miss := if name in prev.value.miss then prev.value.miss else prev.value.miss + [name]))
        case Rejected => prev
        case Accepted(t) => Success(prev.value.(kept := prev.value.kept + [t]))
  }

  /** Once the loop has ended the run, later terms change nothing. */
  lemma {:induction false} PruneStaysFailed(vs: seq<Verdict>, p: nat, p2: nat)
    requires p <= p2 <= |vs| && Prune(vs, p).Failure?
    ensures Prune(vs, p2) == Prune(vs, p)
  {
    if p < p2 {
      PruneStaysFailed(vs, p, p2 - 1);
    }
  }

  /** One more term that does not end the run: kept when accepted, its name reported when unmatched. */
  lemma PruneNext(vs: seq<Verdict>, p: nat)
    requires p < |vs| && Prune(vs, p).Success? && !Fatal(vs[p])
    ensures var prev := Prune(vs, p).value;
      var v := vs[p];
      Prune(vs, p + 1) == Success(Pruned(
        prev.kept + (if v.Accepted? then [v.term] else []),
        if v.Unmatched? && v.name !in prev.miss then prev.miss + [v.name] else prev.miss))
  {
    var prev := Prune(vs, p).value;
    if !vs[p].Accepted? {
      assert prev.kept + [] == prev.kept;
    }
  }

  /** A fatal verdict ends the run with its own error. */
  lemma PruneFatal(vs: seq<Verdict>, p: nat)
    requires p < |vs| && Prune(vs, p).Success? && Fatal(vs[p])
    ensures Prune(vs, p + 1) == Failure(FatalError(vs[p]))
  {
  }

  predicate Fatal(v: Verdict)
  {
    v.BadIndex? || v.Duplicate?
  }

  /** The error a fatal verdict ends the run with. */
  function FatalError(v: Verdict): Error
    requires Fatal(v)
  {
    if v.BadIndex? then IndexOutOfRange else DuplicateDihedral(v.name)
  }

  /** Positions among the first p whose term stays. */
  function AcceptedAt(vs: seq<Verdict>, p: nat): (pos: seq<nat>)
    requires p <= |vs|
    ensures forall q :: q in pos <==> 0 <= q < p && vs[q].Accepted?
    ensures forall k :: 0 <= k < |pos| ==> pos[k] < p
    ensures forall a, b :: 0 <= a < b < |pos| ==> pos[a] < pos[b]
  {
    if p == 0 then []
    else
      var pre := AcceptedAt(vs, p - 1);
      pre + if vs[p - 1].Accepted? then [p - 1] else []
  }

  predicate NoDup(s: seq<string>)
  {
    forall a, b :: 0 <= a < b < |s| ==> s[a] != s[b]
  }

  /** The loop runs through exactly when no verdict is fatal. */
  lemma {:induction false} PruneOk(vs: seq<Verdict>, p: nat)
    requires p <= |vs|
    ensures Prune(vs, p).Success? <==> forall q :: 0 <= q < p ==> !Fatal(vs[q])
  {
    if p > 0 {
      PruneOk(vs, p - 1);
    }
  }

  /** A run that ends, ends with the error of the first fatal verdict. */
  lemma {:induction false} PruneFirstFatal(vs: seq<Verdict>, p: nat)
    requires p <= |vs| && Prune(vs, p).Failure?
    ensures exists q ::
      && 0 <= q < p && Fatal(vs[q]) && Prune(vs, p).error == FatalError(vs[q])
      && forall e :: 0 <= e < q ==> !Fatal(vs[e])
  {
    if Prune(vs, p - 1).Failure? {
      PruneFirstFatal(vs, p - 1);
    } else {
      PruneOk(vs, p - 1);
      assert Fatal(vs[p - 1]) && Prune(vs, p).error == FatalError(vs[p - 1]);
    }
  }

  /** The kept terms are the accepted ones, in their original relative order. */
  lemma {:induction false} PruneKept(vs: seq<Verdict>, p: nat)
    requires p <= |vs| && Prune(vs, p).Success?
    ensures var kept := Prune(vs, p).value.kept;
      var pos := AcceptedAt(vs, p);
      |kept| == |pos| && forall k :: 0 <= k < |pos| ==> kept[k] == vs[pos[k]].term
  {
    if p > 0 {
      PruneKept(vs, p - 1);
    }
  }

  /** Each name reported missing belongs to an unmatched term, and is reported exactly once. */
  lemma {:induction false} PruneMiss(vs: seq<Verdict>, p: nat)
    requires p <= |vs| && Prune(vs, p).Success?
    ensures NoDup(Prune(vs, p).value.miss)
    ensures forall s :: s in Prune(vs, p).value.miss <==> exists q :: 0 <= q < p && vs[q] == Unmatched(s)
  {
    if p > 0 {
      PruneMiss(vs, p - 1);
      if vs[p - 1].Unmatched? {
        var s := vs[p - 1].name;
        assert vs[p - 1] == Unmatched(s);
      }
    }
  }

  /** The terms of the first p verdicts, all of which keep their term. */
  function Terms(vs: seq<Verdict>, p: nat): (ts: seq<Term>)
    requires p <= |vs| && forall q :: 0 <= q < |vs| ==> vs[q].Accepted?
    ensures |ts| == p && forall k :: 0 <= k < p ==> ts[k] == vs[k].term
  {
    if p == 0 then [] else Terms(vs, p - 1) + [vs[p - 1].term]
  }

  /** A term list whose every verdict is to stay passes through unchanged, with nothing reported. */
  lemma {:induction false} PruneAllAccepted(vs: seq<Verdict>, p: nat)
    requires p <= |vs| && forall q :: 0 <= q < |vs| ==> vs[q].Accepted?
    ensures Prune(vs, p) == Success(Pruned(Terms(vs, p), []))
  {
    if p > 0 {
      PruneAllAccepted(vs, p - 1);
      assert vs[p - 1] == Accepted(vs[p - 1].term);
    }
  }

  /** An accepted angle, judged again, is accepted as itself: typing it is idempotent. */
  lemma AngleVerdictIdempotent(types: seq<string>, t: Term, recs: seq<Rec>, theta: (int, int, int) -> real)
    requires |t.at| == 3 && EqValsSet(recs) && AngleVerdict(types, t, recs, theta).Accepted?
    ensures var u := AngleVerdict(types, t, recs, theta).term;
      |u.at| == 3 && AngleVerdict(types, u, recs, theta) == Accepted(u)
  {
  }

  lemma TorsionVerdictIdempotent(types: seq<string>, t: Term, recs: seq<Rec>, dupFatal: bool)
    requires TorsionVerdict(types, t, recs, dupFatal).Accepted?
    ensures var u := TorsionVerdict(types, t, recs, dupFatal).term;
      TorsionVerdict(types, u, recs, dupFatal) == Accepted(u)
  {
  }

  // ---------------------------------------------------------------- the whole of setff

  function AnglePhase(types: seq<string>, ts: seq<Term>, recs: seq<Rec>, theta: (int, int, int) -> real)
    : (r: Result<Pruned, Error>)
    requires Arity(ts, 3) && EqValsSet(recs)
    ensures r.Success? ==> |r.value.kept| <= |ts| && |r.value.miss| <= |ts|
  {
    Prune(AngleVerdicts(types, ts, recs, theta), |ts|)
  }

  function TorsionPhase(types: seq<string>, ts: seq<Term>, recs: seq<Rec>, dupFatal: bool): (r: Result<Pruned, Error>)
    ensures r.Success? ==> |r.value.kept| <= |ts| && |r.value.miss| <= |ts|
  {
    Prune(TorsionVerdicts(types, ts, recs, dupFatal), |ts|)
  }

  /** A molecule's atoms and bonded terms. */
  datatype Topo = Topo(atom: seq<Atom>, bond: seq<Term>, angle: seq<Term>, dihed: seq<Term>, dimpr: seq<Term>)

  /** What `setff` reports without ending the run: bond warnings and the missing angle, dihedral and improper names. */
  datatype Report = Report(bondWarn: seq<(nat, nat)>, anmiss: seq<string>, dhmiss: seq<string>, dimiss: seq<string>)

  /** Bonds join two atoms, angles three, dihedrals and impropers four. */
  predicate Shaped(t: Topo)
  {
    Arity(t.bond, 2) && Arity(t.angle, 3) && Arity(t.dihed, 4) && Arity(t.dimpr, 4)
  }

  /** `setff` with a force field: the five loops in turn; the first one to fail ends the run. */
  function Assign(t: Topo, ff: Field, dist: (int, int) -> real, theta: (int, int, int) -> real)
    : (r: Result<(Topo, Report), Error>)
    requires Shaped(t) && Ready(ff)
    ensures r.Success? ==> var u := r.value.0;
      && |u.atom| == |t.atom| && AllTyped(u.atom) && |u.bond| == |t.bond|
      && |u.angle| <= |t.angle| && |u.dihed| <= |t.dihed| && |u.dimpr| <= |t.dimpr|
  {
    var atoms := AtomPhase(t.atom, ff.atom);
    if atoms.Failure? then Failure(atoms.error)
    else
      var types := Types(atoms.value);
      var bonds := BondPhase(types, t.bond, ff.bond, dist);
      if bonds.Failure? then Failure(bonds.error)
      else
        var angles := AnglePhase(types, t.angle, ff.angle, theta);
        if angles.Failure? then Failure(angles.error)
        else
          var diheds := TorsionPhase(types, t.dihed, ff.dihed, true);
          if diheds.Failure? then Failure(diheds.error)
          else
            var dimprs := TorsionPhase(types, t.dimpr, ff.dimpr, false);
            if dimprs.Failure? then Failure(dimprs.error)
            else
              Success((Topo(atoms.value, bonds.value.bonds, angles.value.kept, diheds.value.kept, dimprs.value.kept),
                       Report(bonds.value.warn, angles.value.miss, diheds.value.miss, dimprs.value.miss)))
  }

  // ---- running setff a second time changes nothing

  /** Which atoms lack a record depends on their names only. */
  lemma {:induction false} UntypedByName(a1: seq<Atom>, a2: seq<Atom>, recs: seq<AtomRec>, n: nat)
    requires n <= |a1| == |a2| && forall k :: 0 <= k < |a1| ==> a1[k].name == a2[k].name
    ensures Untyped(a1, recs, n) == Untyped(a2, recs, n)
  {
    if n > 0 {
      UntypedByName(a1, a2, recs, n - 1);
    }
  }

  lemma AtomPhaseIdempotent(atoms: seq<Atom>, recs: seq<AtomRec>)
    requires AtomPhase(atoms, recs).Success?
    ensures AtomPhase(AtomPhase(atoms, recs).value, recs) == AtomPhase(atoms, recs)
  {
    var typed := AtomPhase(atoms, recs).value;
    assert forall k :: 0 <= k < |atoms| ==> typed[k].name == atoms[k].name;
    UntypedByName(typed, atoms, recs, |atoms|);
    var again := AtomPhase(typed, recs).value;
    forall k | 0 <= k < |atoms|
      ensures again[k] == typed[k]
    {
      assert atoms[k].name !in Untyped(atoms, recs, |atoms|);
      var q := LastAtomRec(recs, atoms[k].name, |recs|).value;
      assert typed[k] == AtomSetPar(atoms[k], recs[q]);
      assert again[k] == AtomSetPar(typed[k], recs[q]);
    }
    assert again == typed;
  }

  lemma BondPhaseIdempotent(types: seq<string>, bonds: seq<Term>, recs: seq<Rec>, dist: (int, int) -> real)
    requires EqValsSet(recs) && Arity(bonds, 2) && BondPhase(types, bonds, recs, dist).Success?
    ensures var b := BondPhase(types, bonds, recs, dist).value;
      Arity(b.bonds, 2) && BondPhase(types, b.bonds, recs, dist) == Success(b)
  {
    BondPhaseSpec(types, bonds, recs, dist);
    var b := BondPhase(types, bonds, recs, dist).value;
    assert BondVerdicts(types, b.bonds, recs, dist) == BondVerdicts(types, bonds, recs, dist);
  }

  lemma {:induction false} KeptAccepted(vs: seq<Verdict>, ws: seq<Verdict>, p: nat)
    requires p <= |vs| && Prune(vs, p).Success?
    requires |ws| == |Prune(vs, p).value.kept|
    requires forall k :: 0 <= k < |ws| ==> ws[k] == Accepted(Prune(vs, p).value.kept[k])
    ensures Prune(ws, |ws|) == Success(Pruned(Prune(vs, p).value.kept, []))
  {
    PruneAllAccepted(ws, |ws|);
    assert Terms(ws, |ws|) == Prune(vs, p).value.kept;
  }

  lemma AnglePhaseIdempotent(types: seq<string>, ts: seq<Term>, recs: seq<Rec>, theta: (int, int, int) -> real)
    requires Arity(ts, 3) && EqValsSet(recs) && AnglePhase(types, ts, recs, theta).Success?
    ensures var kept := AnglePhase(types, ts, recs, theta).value.kept;
      Arity(kept, 3) && AnglePhase(types, kept, recs, theta) == Success(Pruned(kept, []))
  {
    var vs := AngleVerdicts(types, ts, recs, theta);
    var kept := AnglePhase(types, ts, recs, theta).value.kept;
    PruneKept(vs, |ts|);
    var pos := AcceptedAt(vs, |ts|);
    forall k | 0 <= k < |kept|
      ensures |kept[k].at| == 3 && AngleVerdict(types, kept[k], recs, theta) == Accepted(kept[k])
    {
      assert pos[k] in pos;
      AngleVerdictIdempotent(types, ts[pos[k]], recs, theta);
    }
    KeptAccepted(vs, AngleVerdicts(types, kept, recs, theta), |ts|);
  }

  lemma TorsionPhaseIdempotent(types: seq<string>, ts: seq<Term>, recs: seq<Rec>, dupFatal: bool)
    requires Arity(ts, 4) && TorsionPhase(types, ts, recs, dupFatal).Success?
    ensures var kept := TorsionPhase(types, ts, recs, dupFatal).value.kept;
      Arity(kept, 4) && TorsionPhase(types, kept, recs, dupFatal) == Success(Pruned(kept, []))
  {
    var vs := TorsionVerdicts(types, ts, recs, dupFatal);
    var kept := TorsionPhase(types, ts, recs, dupFatal).value.kept;
    PruneKept(vs, |ts|);
    var pos := AcceptedAt(vs, |ts|);
    forall k | 0 <= k < |kept|
      ensures |kept[k].at| == 4 && TorsionVerdict(types, kept[k], recs, dupFatal) == Accepted(kept[k])
    {
      assert pos[k] in pos;
      TorsionVerdictIdempotent(types, ts[pos[k]], recs, dupFatal);
    }
    KeptAccepted(vs, TorsionVerdicts(types, kept, recs, dupFatal), |ts|);
  }

  /**
   * `setff` is idempotent: on a molecule it has already typed and pruned, it
   * keeps every atom and term as it is and reports no missing names; only the
   * bond warnings come again.
   */
  lemma AssignIdempotent(t: Topo, ff: Field, dist: (int, int) -> real, theta: (int, int, int) -> real)
    requires Shaped(t) && Ready(ff) && Assign(t, ff, dist, theta).Success?
    ensures var (u, r) := Assign(t, ff, dist, theta).value;
      Shaped(u) && Assign(u, ff, dist, theta) == Success((u, Report(r.bondWarn, [], [], [])))
  {
    var atoms := AtomPhase(t.atom, ff.atom);
    AtomPhaseIdempotent(t.atom, ff.atom);
    var types := Types(atoms.value);
    BondPhaseIdempotent(types, t.bond, ff.bond, dist);
    AnglePhaseIdempotent(types, t.angle, ff.angle, theta);
    TorsionPhaseIdempotent(types, t.dihed, ff.dihed, true);
    TorsionPhaseIdempotent(types, t.dimpr, ff.dimpr, false);
  }

  // ---- reversed terms share a type

  lemma {:induction false} LastRecAgrees(recs: seq<Rec>, n1: string, n2: string, m: nat)
    requires m <= |recs|
    requires forall q :: 0 <= q < m ==> (Applies(recs, n1, q) <==> Applies(recs, n2, q))
    ensures LastRec(recs, n1, m) == LastRec(recs, n2, m)
  {
    if m > 0 {
      LastRecAgrees(recs, n1, n2, m - 1);
    }
  }

  /**
   * A term read in the opposite direction gets the reversed name, yet matches
   * the same records when no label contains '-': `setpar` renames both in the
   * record's own order, so both end up with one name and hence one type.
   */
  lemma ReversedTermsShareName(types: seq<string>, t1: Term, t2: Term, recs: seq<Rec>)
    requires AllDashFree(types) && InRange(|types|, t1.at)
    requires |t2.at| == |t1.at| && forall k :: 0 <= k < |t1.at| ==> t2.at[k] == t1.at[|t1.at| - 1 - k]
    requires forall q :: 0 <= q < |recs| ==> |recs[q].labels| == |t1.at| && AllDashFree(recs[q].labels)
    ensures InRange(|types|, t2.at)
    ensures LastRec(recs, TermName(types, t1.at), |recs|) == LastRec(recs, TermName(types, t2.at), |recs|)
    ensures LastRec(recs, TermName(types, t1.at), |recs|).Some? ==>
      var u1, u2 := TypedTerm(t1, recs, TermName(types, t1.at)), TypedTerm(t2, recs, TermName(types, t2.at));
      u1.name == u2.name && u1.par == u2.par
  {
    TypesOfReversed(types, t1.at, t2.at);
    var l1 := TypesOf(types, t1.at);
    assert AllDashFree(l1);
    ReverseDashFree(l1);
    AppliesIffMatches(recs, l1, |recs|);
    AppliesIffMatches(recs, Reverse(l1), |recs|);
    forall q | 0 <= q < |recs|
      ensures NameMatches(Join(l1), recs[q].labels) <==> NameMatches(Join(Reverse(l1)), recs[q].labels)
    {
      MatchReversed(l1, recs[q].labels);
    }
    LastRecAgrees(recs, TermName(types, t1.at), TermName(types, t2.at), |recs|);
  }
}
