/**
 * The loops of `mol.setff`, one method per term kind. Each walks its list as
 * the source does — every force-field record tried in turn, matches applied
 * in place — and is proved to produce what the corresponding phase function
 * of module Matching describes. Where the source removes unmatched angles,
 * dihedrals and impropers from the live list while looping over a copy, the
 * methods collect the kept terms instead: they equal the live list after the
 * loop.
 */
module Typing {
  import opened Wrappers
  import opened Names
  import opened ForceField
  import opened Matching

  /** One atom against every record in turn: each record of its name is applied, so the last one remains. */
  method MatchAtom(a: Atom, recs: seq<AtomRec>) returns (at: Atom, found: bool)
    ensures at == TypedAtom(a, recs)
    ensures found <==> exists q :: 0 <= q < |recs| && recs[q].name == a.name
  {
    at, found := a, false;
    for q := 0 to |recs|
      invariant found <==> LastAtomRec(recs, a.name, q).Some?
      invariant at == match LastAtomRec(recs, a.name, q)
        case None => a
        case Some(p) => AtomSetPar(a, recs[p])
    {
      if at.name == recs[q].name {
        at := AtomSetPar(at, recs[q]);
        found := true;
      }
    }
  }

  /**
   * The atom loop: each atom takes the parameters of every record of its
   * name in turn; the names of atoms without a record are collected.
   */
  method TypeAtoms(atoms: seq<Atom>, recs: seq<AtomRec>) returns (typed: seq<Atom>, miss: seq<string>)
    ensures |typed| == |atoms| && forall k :: 0 <= k < |atoms| ==> typed[k] == TypedAtom(atoms[k], recs)
    ensures miss == Untyped(atoms, recs, |atoms|)
    ensures AtomPhase(atoms, recs) == if miss == [] then Success(typed) else Failure(MissingAtomTypes(miss))
  {
    typed, miss := atoms, [];
    for k := 0 to |atoms|
      invariant |typed| == |atoms|
      invariant forall e :: 0 <= e < k ==> typed[e] == TypedAtom(atoms[e], recs)
      invariant miss == Untyped(atoms, recs, k)
    {
      var at, found := MatchAtom(atoms[k], recs);
      typed := typed[k := at];
      if !found {
        miss := miss + [atoms[k].name];
      }
    }
    AtomPhaseOf(atoms, recs, typed);
  }

  /**
   * One bond against every record in turn: the bond is named from its atoms'
   * types, and each record that matches the bond's current name is applied,
   * renaming it after the record; the applied records whose check rejects the
   * bond's length are listed.
   */
  method MatchBond(types: seq<string>, t: Term, recs: seq<Rec>, dist: (int, int) -> real) returns (v: BondVerdict)
    requires |t.at| == 2 && EqValsSet(recs)
    ensures v == JudgeBond(types, t, recs, dist)
  {
    if !InRange(|types|, t.at) {
      return BondBadIndex;   // the IndexError raised while naming the bond
    }
    var name := TermName(types, t.at);
    var obs := BondLength(types, t, dist);
    var bd, found, failing := t.(name := name), false, [];
    for q := 0 to |recs|
      invariant found <==> LastRec(recs, name, q).Some?
      invariant bd == match LastRec(recs, name, q)
        case None => t.(name := name)
        case Some(p) => TermSetPar(t, recs[p])
      invariant bd.name == NameAfter(recs, name, q)
      invariant failing == FailingMatches(recs, name, obs, q)
    {
      if NameMatches(bd.name, recs[q].labels) {
        bd := TermSetPar(bd, recs[q]);
        if !BondCheckVal(recs[q], obs) {
          failing := failing + [q];
        }
        found := true;
      }
    }
    return BondNamed(bd, name, !found, failing);
  }

  /**
   * The bond loop: each bond is named from its atoms' types, takes in turn
   * every record that matches its current name and is warned about once per
   * such record whose check rejects its length; a bond without a record ends the run
   * once all bonds have been seen.
   */
  method TypeBonds(types: seq<string>, bonds: seq<Term>, recs: seq<Rec>, dist: (int, int) -> real)
    returns (r: Result<Bonding, Error>)
    requires Arity(bonds, 2) && EqValsSet(recs)
    ensures r == BondPhase(types, bonds, recs, dist)
  {
    r := NameBonds(types, bonds, recs, dist);
    if r.Success? && r.value.missing != [] {
      r := Failure(MissingBondTypes(r.value.missing));
    }
  }

  /** The bonds in turn, each named and collected; an atom index outside the list ends the run at once. */
  method NameBonds(types: seq<string>, bonds: seq<Term>, recs: seq<Rec>, dist: (int, int) -> real)
    returns (r: Result<Bonding, Error>)
    requires Arity(bonds, 2) && EqValsSet(recs)
    ensures r == BondsUpTo(BondVerdicts(types, bonds, recs, dist), |bonds|)
  {
    ghost var bvs := BondVerdicts(types, bonds, recs, dist);
    var named: seq<Term>, missing: seq<string>, warn: seq<(nat, nat)> := [], [], [];
    for k := 0 to |bonds|
      invariant BondsUpTo(bvs, k) == Success(Bonding(named, missing, warn))
    {
      var v := MatchBond(types, bonds[k], recs, dist);
      assert v == bvs[k];
      if v.BondBadIndex? {
        BondsUpToStaysFailed(bvs, k + 1, |bonds|);
        return Failure(IndexOutOfRange);
      }
      BondsUpToNext(bvs, k);
      named := named + [v.term];
      missing := missing + if v.unmatched then [v.name] else [];
      warn := warn + Tagged(k, v.failing);
    }
    return Success(Bonding(named, missing, warn));
  }

  /**
   * One angle against every record in turn: named from its atoms' types, it
   * takes each record that matches its current name, and is rejected when one
   * of them finds its observed value out of tolerance.
   */
  method MatchAngle(types: seq<string>, t: Term, recs: seq<Rec>, theta: (int, int, int) -> real)
    returns (v: Verdict)
    requires |t.at| == 3 && EqValsSet(recs)
    ensures v == AngleVerdict(types, t, recs, theta)
  {
    if !InRange(|types|, t.at) {
      return BadIndex;   // the IndexError raised while naming the angle
    }
    var name := TermName(types, t.at);
    var th := AngleValue(types, t, theta);
    var an := t.(name := name);
    var found, check := false, true;
    for q := 0 to |recs|
      invariant found <==> LastRec(recs, name, q).Some?
      invariant check <==> AnglePasses(recs, name, th, q)
      invariant an == match LastRec(recs, name, q)
        case None => t.(name := name)
        case Some(e) => TermSetPar(t, recs[e])
      invariant an.name == NameAfter(recs, name, q)
    {
      if NameMatches(an.name, recs[q].labels) {
        an := TermSetPar(an, recs[q]);
        found := true;
        if !AngleCheckVal(recs[q], th) {
          check := false;
        }
      }
    }
    if !found {
      return Unmatched(name);
    } else if !check {
      return Rejected;
    }
    return Accepted(an);
  }

  /**
   * One dihedral (dupFatal) or improper against every record in turn: it
   * takes each record that matches its current name; for a dihedral a second
   * such record ends the run.
   */
  method MatchTorsion(types: seq<string>, t: Term, recs: seq<Rec>, dupFatal: bool) returns (v: Verdict)
    ensures v == TorsionVerdict(types, t, recs, dupFatal)
  {
    if !InRange(|types|, t.at) {
      return BadIndex;   // the IndexError raised while naming the term
    }
    var name := TermName(types, t.at);
    var dh := t.(name := name);
    var found := false;
    for q := 0 to |recs|
      invariant found <==> LastRec(recs, name, q).Some?
      invariant dupFatal ==> MatchCount(recs, name, q) <= 1
      invariant dh == match LastRec(recs, name, q)
        case None => t.(name := name)
        case Some(e) => TermSetPar(t, recs[e])
      invariant dh.name == NameAfter(recs, name, q)
    {
      if NameMatches(dh.name, recs[q].labels) {
        if found && dupFatal {
          TwoMatches(recs, name, |recs|, LastRec(recs, name, q).value, q);
          return Duplicate(name);
        }
        dh := TermSetPar(dh, recs[q]);
        found := true;
      }
    }
    if !found {
      return Unmatched(name);
    }
    return Accepted(dh);
  }

  /**
   * The angle loop, over a copy of the list: each angle is judged against the
   * records and removed from the live list unless it stays; an unmatched name
   * is reported the first time only. Each removal takes out the term the loop
   * is at, so the live list is always the terms kept so far followed by those
   * not yet reached, and only the kept ones are collected here.
   */
  method PruneAngles(types: seq<string>, angles: seq<Term>, recs: seq<Rec>, theta: (int, int, int) -> real)
    returns (r: Result<Pruned, Error>)
    requires Arity(angles, 3) && EqValsSet(recs)
    ensures r == AnglePhase(types, angles, recs, theta)
  {
    ghost var vs := AngleVerdicts(types, angles, recs, theta);
    var kept, anmiss := [], [];
    for p := 0 to |angles|
      invariant Prune(vs, p) == Success(Pruned(kept, anmiss))
    {
      var v := JudgeAngle(types, angles, recs, theta, p);
      if Fatal(v) {
        PruneFatal(vs, p);
        PruneStaysFailed(vs, p + 1, |vs|);
        return Failure(FatalError(v));
      }
      kept, anmiss := Step(vs, p, kept, anmiss, v);
    }
    return Success(Pruned(kept, anmiss));
  }

  /** The verdict on angle p of the list. */
  method JudgeAngle(types: seq<string>, angles: seq<Term>, recs: seq<Rec>, theta: (int, int, int) -> real, p: nat)
    returns (v: Verdict)
    requires p < |angles| && Arity(angles, 3) && EqValsSet(recs)
    ensures v == AngleVerdicts(types, angles, recs, theta)[p]
  {
    v := MatchAngle(types, angles[p], recs, theta);
  }

  /** The dihedral (dupFatal) or improper loop, in the same way as the angle loop. */
  method PruneTorsions(types: seq<string>, ts: seq<Term>, recs: seq<Rec>, dupFatal: bool)
    returns (r: Result<Pruned, Error>)
    ensures r == TorsionPhase(types, ts, recs, dupFatal)
  {
    ghost var vs := TorsionVerdicts(types, ts, recs, dupFatal);
    var kept, miss := [], [];
    for p := 0 to |ts|
      invariant Prune(vs, p) == Success(Pruned(kept, miss))
    {
      var v := JudgeTorsion(types, ts, recs, dupFatal, p);
      if Fatal(v) {
        PruneFatal(vs, p);
        PruneStaysFailed(vs, p + 1, |vs|);
        return Failure(FatalError(v));
      }
      kept, miss := Step(vs, p, kept, miss, v);
    }
    return Success(Pruned(kept, miss));
  }

  /** The verdict on dihedral or improper p of the list. */
  method JudgeTorsion(types: seq<string>, ts: seq<Term>, recs: seq<Rec>, dupFatal: bool, p: nat) returns (v: Verdict)
    requires p < |ts|
    ensures v == TorsionVerdicts(types, ts, recs, dupFatal)[p]
  {
    v := MatchTorsion(types, ts[p], recs, dupFatal);
  }

  /**
   * What one judged term p does: a kept term stays (named and parameterised),
   * any other is removed, and an unmatched name joins the report unless
   * already in it.
   */
  method Step(ghost vs: seq<Verdict>, p: nat, kept: seq<Term>, miss: seq<string>, v: Verdict)
    returns (kept2: seq<Term>, miss2: seq<string>)
    requires p < |vs| && v == vs[p] && !Fatal(v) && Prune(vs, p) == Success(Pruned(kept, miss))
    ensures Prune(vs, p + 1) == Success(Pruned(kept2, miss2))
  {
    PruneNext(vs, p);
    kept2, miss2 := kept, miss;
    match v
    case Unmatched(name) =>
      if name !in miss {
        miss2 := miss + [name];
      }
    case Rejected =>
    case Accepted(t) =>
      kept2 := kept + [t];
  }
}
