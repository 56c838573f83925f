/**
 * A molecule (`class mol`): its atoms and its bond, angle, dihedral and
 * improper lists, built from a z-matrix, completed by the topology
 * enumeration, and finally typed and pruned against its force field.
 * Positions are not stored: the geometry the methods consult is the
 * `dist` and `theta` parameters.
 */
module Molecule {
  import opened Wrappers
  import opened Names
  import opened Elements
  import opened ForceField
  import opened Topology
  import opened Matching
  import opened Connectivity
  import opened Typing
  import opened Zmatrix

  /** Where the bonds came from: none yet, declared in the file, or guessed from distances. */
  datatype Topol = NoTopology | FromFile | Guessed

  /** The atoms a z-matrix adds: each named by its line, with its element's weight. */
  function ZAtoms(zatom: seq<ZAtom>): (r: seq<Atom>)
    requires Named(zatom)
    ensures |r| == |zatom| && forall k :: 0 <= k < |zatom| ==> r[k] == NewAtom(zatom[k].name, 0.0)
  {
    seq(|zatom|, k requires 0 <= k < |zatom| => NewAtom(zatom[k].name, 0.0))
  }

  /** One atom against every record in turn: each record of its name sets the type, so the last one remains. */
  method TypeOf(a: Atom, recs: seq<AtomRec>) returns (at: Atom, found: bool)
    ensures at == TypeOnly(a, recs)
    ensures found <==> exists q :: 0 <= q < |recs| && recs[q].name == a.name
  {
    at, found := a, false;
    for q := 0 to |recs|
      invariant found <==> LastAtomRec(recs, a.name, q).Some?
      invariant at == match LastAtomRec(recs, a.name, q)
        case None => a
        case Some(p) => a.(typ := Some(recs[p].typ))
    {
      if at.name == recs[q].name {
        at := at.(typ := Some(recs[q].typ));
        found := true;
      }
    }
  }

  /** Every atom typed by its records in turn; the names of the atoms no record matched. */
  method TypeAll(atoms: seq<Atom>, recs: seq<AtomRec>) returns (typed: seq<Atom>, miss: seq<string>)
    ensures |typed| == |atoms| && forall e :: 0 <= e < |atoms| ==> typed[e] == TypeOnly(atoms[e], recs)
    ensures miss == Untyped(atoms, recs, |atoms|)
  {
    typed, miss := atoms, [];
    for k := 0 to |atoms|
      invariant |typed| == |atoms|
      invariant forall e :: 0 <= e < k ==> typed[e] == TypeOnly(atoms[e], recs)
      invariant forall e :: k <= e < |atoms| ==> typed[e] == atoms[e]
      invariant miss == Untyped(atoms, recs, k)
    {
      var at, found := TypeOf(typed[k], recs);
      typed := typed[k := at];
      if !found {
        miss := miss + [at.name];
      }
    }
  }

  /** A run's outcome together with the lists it left: the lists count only when it succeeded. */
  function Applied(res: Result<Report, Error>, t: Topo): Result<(Topo, Report), Error>
  {
    if res.Success? then Success((t, res.value)) else Failure(res.error)
  }

  /**
   * The phases of `setff` with a force field, in order: atoms typed, bonds
   * named and checked, angles, dihedrals and impropers named, checked and
   * pruned; the first fatal error ends it.
   */
  method AssignLists(t: Topo, field: Field, dist: (int, int) -> real, theta: (int, int, int) -> real)
    returns (r: Result<(Topo, Report), Error>)
    requires Ready(field) && Shaped(t)
    ensures r == Assign(t, field, dist, theta)
  {
    var typed, miss := TypeAtoms(t.atom, field.atom);
    if miss != [] {
      return Failure(MissingAtomTypes(miss));
    }
    var types := Types(typed);
    var b := TypeBonds(types, t.bond, field.bond, dist);
    if b.Failure? {
      return Failure(b.error);
    }
    var an := PruneAngles(types, t.angle, field.angle, theta);
    if an.Failure? {
      return Failure(an.error);
    }
    var dh := PruneTorsions(types, t.dihed, field.dihed, true);
    if dh.Failure? {
      return Failure(dh.error);
    }
    var di := PruneTorsions(types, t.dimpr, field.dimpr, false);
    if di.Failure? {
      return Failure(di.error);
    }
    return Success((Topo(typed, b.value.bonds, an.value.kept, dh.value.kept, di.value.kept),
                    Report(b.value.warn, an.value.miss, dh.value.miss, di.value.miss)));
  }

  /** The neighbours of atom i: the other end of every bond touching it, in bond order. */
  method NeighborList(bs: seq<Pair>, i: int) returns (neib: seq<int>)
    ensures neib == Neighbors(bs, i)
  {
    neib := [];
    for q := 0 to |bs|
      invariant neib == NeighborsIn(bs, i, q)
    {
      if i == bs[q].0 {
        neib := neib + [bs[q].1];
      } else if i == bs[q].1 {
        neib := neib + [bs[q].0];
      }
    }
  }

  /** Concatenating term lists of one arity keeps it. */
  lemma ArityAppend(a: seq<Term>, b: seq<Term>, n: nat)
    ensures Arity(a, n) && Arity(b, n) ==> Arity(a + b, n)
  {
    if Arity(a, n) && Arity(b, n) {
      forall k | 0 <= k < |a + b|
        ensures |(a + b)[k].at| == n
      {
        if k >= |a| {
          assert (a + b)[k] == b[k - |a|];
        }
      }
    }
  }

  /** The atoms of the z-matrix lines in order, and the sum of their weights. */
  method NewAtoms(zatom: seq<ZAtom>) returns (added: seq<Atom>, mass: real)
    requires Named(zatom)
    ensures added == ZAtoms(zatom) && mass == Mass(zatom, |zatom|)
  {
    added, mass := [], 0.0;
    for i := 0 to |zatom|
      invariant |added| == i && forall k :: 0 <= k < i ==> added[k] == NewAtom(zatom[k].name, 0.0)
      invariant mass == Mass(zatom, i)
    {
      assert Mass(zatom, i + 1) == Mass(zatom, i) + AtomicWeight(zatom[i].name);
      added := added + [NewAtom(zatom[i].name, 0.0)];
      mass := mass + AtomicWeight(zatom[i].name);
    }
  }

  /** Terms made of n-atom tuples are over n atoms. */
  lemma FreshArity(tuples: seq<seq<int>>, n: nat)
    requires forall x :: x in tuples ==> |x| == n
    ensures Arity(Fresh(tuples), n)
  {
    forall k | 0 <= k < |tuples|
      ensures |Fresh(tuples)[k].at| == n
    {
      assert tuples[k] in tuples;
    }
  }

  /** The bonds a z-matrix declares are pairs. */
  lemma DeclaredPairs(z: Zmat)
    ensures Arity(Fresh(DeclaredBonds(z)), 2)
  {
    forall x | x in DeclaredBonds(z)
      ensures |x| == 2
    {
      if x in RefBonds(z.zatom) {
        RefBondsStart(z.zatom, x);
      } else {
        var c :| 0 <= c < |z.connect| && ConnectBonds(z.connect)[c] == x;
      }
    }
    FreshArity(DeclaredBonds(z), 2);
  }

  /**
   * The bonds `fromzmat` adds, with the atom list it leaves and where the
   * bonds came from: the declared ones, or, when the file says `reconnect`,
   * the ones `connectivity` guesses once it has typed the atoms.
   */
  function NewBonds(z: Zmat, field: Field, dist: (int, int) -> real, atoms: seq<Atom>): (r: Result<(seq<Atom>, seq<Term>, Topol), Error>)
    requires EqValsSet(field.bond)
    ensures r.Success? ==> Arity(r.value.1, 2) && |r.value.0| == |atoms|
  {
    if !z.reconnect then
      DeclaredPairs(z);
      Success((atoms, Fresh(DeclaredBonds(z)), FromFile))
    else
      var typed := AtomTypes(atoms, field.atom);
      if typed.Failure? then Failure(typed.error)
      else
        var types := Types(typed.value);
        InferredPairs(types, field.bond, dist);
        FreshArity(Inferred(types, field.bond, dist), 2);
        Success((typed.value, Fresh(Inferred(types, field.bond, dist)), Guessed))
  }

  /**
   * The topology step of `fromzmat` on a molecule's lists: the new bonds,
   * then the angles and dihedrals over all its bonds, then the declared
   * impropers; with where the bonds came from.
   */
  function ZmatTopology(z: Zmat, field: Field, dist: (int, int) -> real, t: Topo): (r: Result<(Topo, Topol), Error>)
    requires EqValsSet(field.bond) && Arity(t.bond, 2)
    ensures r.Success? ==> Arity(r.value.0.bond, 2)
  {
    match NewBonds(z, field, dist, t.atom)
    case Failure(e) => Failure(e)
    case Success((atoms, added, topol)) =>
      ArityAppend(t.bond, added, 2);
      var bs := Ends(t.bond + added);
      Success((Topo(atoms, t.bond + added, t.angle + Fresh(Angles(bs, |atoms|)), t.dihed + Fresh(Diheds(bs)),
                    t.dimpr + Fresh(Impropers(z.improper))), topol))
  }

  /** With declared bonds the topology step never fails and leaves the atoms alone. */
  lemma ZmatTopologyDeclared(z: Zmat, field: Field, dist: (int, int) -> real, t: Topo)
    requires EqValsSet(field.bond) && Arity(t.bond, 2) && !z.reconnect
    ensures var r := ZmatTopology(z, field, dist, t);
      && r.Success? && r.value.1 == FromFile && r.value.0.atom == t.atom
      && r.value.0.bond == t.bond + Fresh(DeclaredBonds(z))
  {
  }

  /** Guessing the bonds fails exactly when some atom's name has no force-field record. */
  lemma ZmatTopologyGuessedOk(z: Zmat, field: Field, dist: (int, int) -> real, t: Topo)
    requires EqValsSet(field.bond) && Arity(t.bond, 2) && z.reconnect
    ensures ZmatTopology(z, field, dist, t).Success? <==>
      forall k :: 0 <= k < |t.atom| ==> exists q :: 0 <= q < |field.atom| && field.atom[q].name == t.atom[k].name
  {
    AtomTypesMeaning(t.atom, field.atom);
  }

  /** Guessed bonds only retype the atoms, and every bond they add joins atoms i < j of the molecule. */
  lemma NewBondsGuessed(z: Zmat, field: Field, dist: (int, int) -> real, atoms: seq<Atom>)
    requires EqValsSet(field.bond) && z.reconnect && NewBonds(z, field, dist, atoms).Success?
    ensures var (typed, added, topol) := NewBonds(z, field, dist, atoms).value;
      && topol == Guessed && |typed| == |atoms|
      && (forall k :: 0 <= k < |atoms| ==> typed[k] == atoms[k].(typ := typed[k].typ))
      && forall k :: 0 <= k < |added| ==> |added[k].at| == 2 && 0 <= added[k].at[0] < added[k].at[1] < |atoms|
  {
    AtomTypesMeaning(atoms, field.atom);
    var typed := AtomTypes(atoms, field.atom).value;
    var pairs := Inferred(Types(typed), field.bond, dist);
    InferredPairs(Types(typed), field.bond, dist);
    var added := NewBonds(z, field, dist, atoms).value.1;
    assert added == Fresh(pairs);
    forall k | 0 <= k < |added|
      ensures |added[k].at| == 2 && 0 <= added[k].at[0] < added[k].at[1] < |atoms|
    {
      assert pairs[k] in pairs;
    }
  }

  /** A successful topology step takes its atoms, added bonds and origin from NewBonds. */
  lemma ZmatTopologyBonds(z: Zmat, field: Field, dist: (int, int) -> real, t: Topo)
    requires EqValsSet(field.bond) && Arity(t.bond, 2) && ZmatTopology(z, field, dist, t).Success?
    ensures NewBonds(z, field, dist, t.atom).Success?
    ensures var (atoms, added, topol) := NewBonds(z, field, dist, t.atom).value;
      var (u, topol') := ZmatTopology(z, field, dist, t).value;
      u.atom == atoms && u.bond == t.bond + added && topol' == topol
  {
  }

  /** The same, for the topology step as a whole: the atoms only retyped, the added bonds pairs i < j. */
  lemma ZmatTopologyGuessed(z: Zmat, field: Field, dist: (int, int) -> real, t: Topo)
    requires EqValsSet(field.bond) && Arity(t.bond, 2) && z.reconnect
    requires ZmatTopology(z, field, dist, t).Success?
    ensures var u := ZmatTopology(z, field, dist, t).value.0;
      && ZmatTopology(z, field, dist, t).value.1 == Guessed && |u.atom| == |t.atom|
      && (forall k :: 0 <= k < |t.atom| ==> u.atom[k] == t.atom[k].(typ := u.atom[k].typ))
      && forall k :: |t.bond| <= k < |u.bond| ==> |u.bond[k].at| == 2 && 0 <= u.bond[k].at[0] < u.bond[k].at[1] < |t.atom|
  {
    ZmatTopologyBonds(z, field, dist, t);
    NewBondsGuessed(z, field, dist, t.atom);
    AppendedPairs(t.bond, NewBonds(z, field, dist, t.atom).value.1, |t.atom|);
  }

  /** Every bond after the first |bs| of bs + added is one of `added`. */
  lemma AppendedPairs(bs: seq<Term>, added: seq<Term>, n: int)
    requires forall k :: 0 <= k < |added| ==> |added[k].at| == 2 && 0 <= added[k].at[0] < added[k].at[1] < n
    ensures forall k :: |bs| <= k < |bs + added| ==>
      |(bs + added)[k].at| == 2 && 0 <= (bs + added)[k].at[0] < (bs + added)[k].at[1] < n
  {
    forall k | |bs| <= k < |bs + added|
      ensures |(bs + added)[k].at| == 2 && 0 <= (bs + added)[k].at[0] < (bs + added)[k].at[1] < n
    {
      assert (bs + added)[k] == added[k - |bs|];
    }
  }

  /** The topology step keeps the old terms in front and adds the declared impropers. */
  lemma ZmatTopologyKeeps(z: Zmat, field: Field, dist: (int, int) -> real, t: Topo)
    requires EqValsSet(field.bond) && Arity(t.bond, 2) && ZmatTopology(z, field, dist, t).Success?
    ensures var u := ZmatTopology(z, field, dist, t).value.0;
      && t.bond <= u.bond && t.angle <= u.angle && t.dihed <= u.dihed
      && u.dimpr == t.dimpr + Fresh(Impropers(z.improper))
  {
  }

  /** A successful topology step appends the angles and dihedrals over all the bonds it leaves. */
  lemma ZmatTopologyTerms(z: Zmat, field: Field, dist: (int, int) -> real, t: Topo)
    requires EqValsSet(field.bond) && Arity(t.bond, 2) && ZmatTopology(z, field, dist, t).Success?
    ensures var u := ZmatTopology(z, field, dist, t).value.0;
      && u.angle == t.angle + Fresh(Angles(Ends(u.bond), |u.atom|))
      && u.dihed == t.dihed + Fresh(Diheds(Ends(u.bond)))
  {
  }

  /** An angle appended to a list is one of the new angles, each centred on one of n atoms and bonded to both ends. */
  lemma AppendedAngles(ts: seq<Term>, bs: seq<Pair>, n: nat)
    ensures var us := ts + Fresh(Angles(bs, n));
      forall k :: |ts| <= k < |us| ==>
        var x := us[k].at;
        |x| == 3 && 0 <= x[1] < n && Bonded(bs, x[1], x[0]) && Bonded(bs, x[1], x[2])
  {
    var angles := Angles(bs, n);
    var us := ts + Fresh(angles);
    forall k | |ts| <= k < |us|
      ensures var x := us[k].at;
        |x| == 3 && 0 <= x[1] < n && Bonded(bs, x[1], x[0]) && Bonded(bs, x[1], x[2])
    {
      assert us[k].at == angles[k - |ts|];
      AngleEndsBonded(bs, n, angles[k - |ts|]);
    }
  }

  /** A dihedral appended to a list is one of the new dihedrals, each built from three distinct bonds. */
  lemma AppendedDiheds(ts: seq<Term>, bs: seq<Pair>)
    ensures var us := ts + Fresh(Diheds(bs));
      forall k :: |ts| <= k < |us| ==> Chained(bs, us[k].at)
  {
    var diheds := Diheds(bs);
    var us := ts + Fresh(diheds);
    forall k | |ts| <= k < |us|
      ensures Chained(bs, us[k].at)
    {
      assert us[k].at == diheds[k - |ts|];
      DihedsIff(bs, diheds[k - |ts|]);
    }
  }

  /** Every angle the topology step adds is centred on one of the atoms and bonded to both of its ends. */
  lemma ZmatTopologyAngles(z: Zmat, field: Field, dist: (int, int) -> real, t: Topo)
    requires EqValsSet(field.bond) && Arity(t.bond, 2)
    ensures var r := ZmatTopology(z, field, dist, t);
      r.Success? ==> var u := r.value.0;
        forall k :: |t.angle| <= k < |u.angle| ==>
          var x := u.angle[k].at;
          |x| == 3 && 0 <= x[1] < |u.atom| && Bonded(Ends(u.bond), x[1], x[0]) && Bonded(Ends(u.bond), x[1], x[2])
  {
    if ZmatTopology(z, field, dist, t).Success? {
      ZmatTopologyTerms(z, field, dist, t);
      var u := ZmatTopology(z, field, dist, t).value.0;
      AppendedAngles(t.angle, Ends(u.bond), |u.atom|);
    }
  }

  /** The dihedral x is built from three distinct bonds of bs, as `anglesdiheds` chains them. */
  ghost predicate Chained(bs: seq<Pair>, x: seq<int>)
  {
    exists k, l, j :: DihedVia(bs, k, l, j, x)
  }

  /** Every dihedral the topology step adds is built from three distinct bonds. */
  lemma ZmatTopologyDiheds(z: Zmat, field: Field, dist: (int, int) -> real, t: Topo)
    requires EqValsSet(field.bond) && Arity(t.bond, 2)
    ensures var r := ZmatTopology(z, field, dist, t);
      r.Success? ==> var u := r.value.0;
        forall k :: |t.dihed| <= k < |u.dihed| ==> Chained(Ends(u.bond), u.dihed[k].at)
  {
    if ZmatTopology(z, field, dist, t).Success? {
      ZmatTopologyTerms(z, field, dist, t);
      var u := ZmatTopology(z, field, dist, t).value.0;
      AppendedDiheds(t.dihed, Ends(u.bond));
    }
  }

  /** A method's outcome together with the lists and topology origin it left: these count only when it passed. */
  function Built(res: Outcome<Error>, t: Topo, topol: Topol): Result<(Topo, Topol), Error>
  {
    if res.Pass? then Success((t, topol)) else Failure(res.error)
  }

  /** The reference-atom bonds, then the connect-line bonds, numbered from 0. */
  method DeclaredBondTerms(z: Zmat) returns (out: seq<Term>)
    ensures out == Fresh(DeclaredBonds(z)) && Arity(out, 2)
  {
    out := [];
    for i := 1 to (if |z.zatom| == 0 then 1 else |z.zatom|)
      invariant out == Fresh(RefBonds(z.zatom)[..i - 1])
    {
      assert RefBonds(z.zatom)[..i] == RefBonds(z.zatom)[..i - 1] + [[i, z.zatom[i].ir - 1]];
      FreshSnoc(RefBonds(z.zatom)[..i - 1], [i, z.zatom[i].ir - 1]);
      out := out + [NewTerm([i, z.zatom[i].ir - 1])];
    }
    assert RefBonds(z.zatom)[..|RefBonds(z.zatom)|] == RefBonds(z.zatom);
    for c := 0 to |z.connect|
      invariant out == Fresh(RefBonds(z.zatom) + ConnectBonds(z.connect)[..c])
    {
      var cn := z.connect[c];
      assert RefBonds(z.zatom) + ConnectBonds(z.connect)[..c + 1] ==
        (RefBonds(z.zatom) + ConnectBonds(z.connect)[..c]) + [[cn.0 - 1, cn.1 - 1]];
      FreshSnoc(RefBonds(z.zatom) + ConnectBonds(z.connect)[..c], [cn.0 - 1, cn.1 - 1]);
      out := out + [NewTerm([cn.0 - 1, cn.1 - 1])];
    }
    assert ConnectBonds(z.connect)[..|z.connect|] == ConnectBonds(z.connect);
  }

  /** The improper lines as dihedrals, numbered from 0. */
  method ImproperTerms(improper: seq<(int, int, int, int)>) returns (out: seq<Term>)
    ensures out == Fresh(Impropers(improper))
  {
    out := [];
    for c := 0 to |improper|
      invariant out == Fresh(Impropers(improper)[..c])
    {
      var di := improper[c];
      assert Impropers(improper)[..c + 1] == Impropers(improper)[..c] + [[di.0 - 1, di.1 - 1, di.2 - 1, di.3 - 1]];
      FreshSnoc(Impropers(improper)[..c], [di.0 - 1, di.1 - 1, di.2 - 1, di.3 - 1]);
      out := out + [NewTerm([di.0 - 1, di.1 - 1, di.2 - 1, di.3 - 1])];
    }
    assert Impropers(improper)[..|improper|] == Impropers(improper);
  }

  /** The pair loops of `connectivity`: bonds (i, j), i < j, for every accepting record in turn. */
  method InferredBonds(types: seq<string>, recs: seq<Rec>, dist: (int, int) -> real) returns (out: seq<Term>)
    requires EqValsSet(recs)
    ensures out == Fresh(Inferred(types, recs, dist))
  {
    var natom := |types|;
    var rows := if natom == 0 then 0 else natom - 1;
    out := [];
    for i := 0 to rows
      invariant out == Fresh(InferredUpTo(types, recs, dist, i))
    {
      var row := RowBonds(types, recs, dist, i);
      FreshAppend(InferredUpTo(types, recs, dist, i), Row(types, recs, dist, i, natom));
      out := out + row;
    }
    assert Inferred(types, recs, dist) == InferredUpTo(types, recs, dist, rows);
  }

  /** The bonds from atom i to every later atom. */
  method RowBonds(types: seq<string>, recs: seq<Rec>, dist: (int, int) -> real, i: nat) returns (out: seq<Term>)
    requires i < |types| && EqValsSet(recs)
    ensures out == Fresh(Row(types, recs, dist, i, |types|))
  {
    out := [];
    for j := i + 1 to |types|
      invariant out == Fresh(Row(types, recs, dist, i, j))
    {
      var pair := PairBonds(types, recs, dist, i, j);
      FreshAppend(Row(types, recs, dist, i, j), Copies([i, j], PairCount(types, recs, dist, i, j)));
      out := out + pair;
    }
  }

  /** The pair (i, j) against every bond record: one bond per record that names it and accepts its distance. */
  method PairBonds(types: seq<string>, recs: seq<Rec>, dist: (int, int) -> real, i: nat, j: nat) returns (out: seq<Term>)
    requires i < |types| && j < |types| && EqValsSet(recs)
    ensures out == Fresh(Copies([i, j], PairCount(types, recs, dist, i, j)))
  {
    var r := dist(i, j);
    var bdname := Join([types[i], types[j]]);
    out := [];
    for q := 0 to |recs|
      invariant out == Fresh(Copies([i, j], PassCount(recs, bdname, r, q)))
    {
      if NameMatches(bdname, recs[q].labels) && BondCheckVal(recs[q], r) {
        assert Copies([i, j], PassCount(recs, bdname, r, q + 1)) == Copies([i, j], PassCount(recs, bdname, r, q)) + [[i, j]];
        FreshSnoc(Copies([i, j], PassCount(recs, bdname, r, q)), [i, j]);
        out := out + [NewTerm([i, j])];
      }
    }
  }

  /** The angle half of `anglesdiheds`, over atoms 0 .. natom-1. */
  method AngleTerms(bs: seq<Pair>, natom: nat) returns (out: seq<Term>)
    ensures out == Fresh(Angles(bs, natom))
  {
    out := [];
    for i := 0 to natom
      invariant out == Fresh(Angles(bs, i))
    {
      var neib := NeighborList(bs, i);
      var around := AnglesAround(neib, i);
      FreshAppend(Angles(bs, i), AnglesAt(neib, i));
      out := out + around;
    }
  }

  /** The angles (neib[k], i, neib[l]) for every k < l. */
  method AnglesAround(neib: seq<int>, i: int) returns (out: seq<Term>)
    ensures out == Fresh(AnglesAt(neib, i))
  {
    var nb := |neib|;
    out := [];
    for k := 0 to (if nb == 0 then 0 else nb - 1)
      invariant out == Fresh(AnglesUpTo(neib, i, k))
    {
      ghost var pre := AnglesUpTo(neib, i, k);
      for l := k + 1 to nb
        invariant out == Fresh(pre + AngleRow(neib, i, k)[..l - k - 1])
      {
        assert AngleRow(neib, i, k)[..l - k] == AngleRow(neib, i, k)[..l - k - 1] + [[neib[k], i, neib[l]]];
        assert pre + AngleRow(neib, i, k)[..l - k] == (pre + AngleRow(neib, i, k)[..l - k - 1]) + [[neib[k], i, neib[l]]];
        FreshSnoc(pre + AngleRow(neib, i, k)[..l - k - 1], [neib[k], i, neib[l]]);
        out := out + [NewTerm([neib[k], i, neib[l]])];
      }
      assert AngleRow(neib, i, k)[..nb - k - 1] == AngleRow(neib, i, k);
    }
    if nb > 0 {
      assert AnglesUpTo(neib, i, nb) == AnglesUpTo(neib, i, nb - 1) + AngleRow(neib, i, nb - 1);
    }
  }

  /** The dihedral half of `anglesdiheds`: bond k in the middle, bond l on its first atom. */
  method DihedTerms(bs: seq<Pair>) returns (out: seq<Term>)
    ensures out == Fresh(Diheds(bs))
  {
    out := [];
    for k := 0 to |bs|
      invariant out == Fresh(DihedsK(bs, k))
    {
      var over := DihedsOver(bs, k);
      FreshAppend(DihedsK(bs, k), DihedsL(bs, k, |bs|));
      out := out + over;
    }
  }

  /** The dihedrals with bond k in the middle, over every other bond l sharing its first atom. */
  method DihedsOver(bs: seq<Pair>, k: nat) returns (out: seq<Term>)
    requires k < |bs|
    ensures out == Fresh(DihedsL(bs, k, |bs|))
  {
    out := [];
    for l := 0 to |bs|
      invariant out == Fresh(DihedsL(bs, k, l))
    {
      if k == l {
        continue;
      }
      if bs[k].0 == bs[l].0 {
        var closing := ClosingDiheds(bs, k, l, bs[l].1);
        FreshAppend(DihedsL(bs, k, l), DihedsJ(bs, k, l, bs[l].1, |bs|));
        out := out + closing;
      } else if bs[k].0 == bs[l].1 {
        var closing := ClosingDiheds(bs, k, l, bs[l].0);
        FreshAppend(DihedsL(bs, k, l), DihedsJ(bs, k, l, bs[l].0, |bs|));
        out := out + closing;
      }
    }
  }

  /** The innermost loop: every bond j other than k and l continuing bond k's second atom closes a dihedral. */
  method ClosingDiheds(bs: seq<Pair>, k: nat, l: nat, a: int) returns (out: seq<Term>)
    requires k < |bs| && l < |bs|
    ensures out == Fresh(DihedsJ(bs, k, l, a, |bs|))
  {
    out := [];
    for j := 0 to |bs|
      invariant out == Fresh(DihedsJ(bs, k, l, a, j))
    {
      if j == k || j == l {
        continue;
      }
      if bs[k].1 == bs[j].0 {
        FreshSnoc(DihedsJ(bs, k, l, a, j), [a, bs[k].0, bs[k].1, bs[j].1]);
        out := out + [NewTerm([a, bs[k].0, bs[k].1, bs[j].1])];
      } else if bs[k].1 == bs[j].1 {
        FreshSnoc(DihedsJ(bs, k, l, a, j), [a, bs[k].0, bs[k].1, bs[j].0]);
        out := out + [NewTerm([a, bs[k].0, bs[k].1, bs[j].0])];
      }
    }
  }

  class Mol {
    var name: string
    var ff: string        // force-field file; "" when the molecule has none
    var reconnect: bool
    var atom: seq<Atom>
    var bond: seq<Term>
    var angle: seq<Term>
    var dihed: seq<Term>
    var dimpr: seq<Term>
    var m: real
    var topol: Topol

    /** The atom and term lists as one value. */
    function Lists(): Topo
      reads this
    {
      Topo(atom, bond, angle, dihed, dimpr)
    }

    /** An empty molecule of mass zero, before any file is read. */
    constructor ()
      ensures Lists() == Topo([], [], [], [], []) && m == 0.0 && topol == NoTopology
      ensures name == "" && ff == "" && !reconnect
    {
      name, ff, reconnect := "", "", false;
      atom, bond, angle, dihed, dimpr := [], [], [], [], [];
      m, topol := 0.0, NoTopology;
    }

    /**
     * `fromzmat`: one atom per z-matrix line, the mass summed over them, and,
     * when asked to connect and a force field is named, the bonds (declared,
     * or guessed from distances if the file says `reconnect`), the angles and
     * dihedrals they imply and the declared impropers.
     */
    method FromZmat(z: Zmat, connect: bool, field: Field, dist: (int, int) -> real) returns (res: Outcome<Error>)
      requires Named(z.zatom) && EqValsSet(field.bond) && Arity(bond, 2)
      modifies this
      ensures name == z.name && ff == z.ff && reconnect == z.reconnect
      ensures m == old(m) + Mass(z.zatom, |z.zatom|)
      ensures !(connect && z.ff != "") ==>
        res.Pass? && Lists() == old(Lists()).(atom := old(atom) + ZAtoms(z.zatom)) && topol == old(topol)
      ensures connect && z.ff != "" ==>
        Built(res, Lists(), topol) == ZmatTopology(z, field, dist, old(Lists()).(atom := old(atom) + ZAtoms(z.zatom)))
    {
      name, reconnect, ff := z.name, z.reconnect, z.ff;
      AddZAtoms(z.zatom);
      res := Pass;
      if connect && ff != "" {
        res := BuildTopology(z, field, dist);
      }
    }

    /** The topology part of `fromzmat`: the bonds, then angles and dihedrals, then the impropers. */
    method BuildTopology(z: Zmat, field: Field, dist: (int, int) -> real) returns (res: Outcome<Error>)
      requires EqValsSet(field.bond) && Arity(bond, 2)
      modifies this`atom, this`bond, this`angle, this`dihed, this`dimpr, this`topol
      ensures Built(res, Lists(), topol) == ZmatTopology(z, field, dist, old(Lists()))
    {
      res := AddBonds(z, field, dist);
      if res.Fail? {
        return;
      }
      AnglesDiheds();
      var impropers := ImproperTerms(z.improper);
      dimpr := dimpr + impropers;
    }

    /** The bonds of `fromzmat`: the declared ones, or those `connectivity` guesses when the file says `reconnect`. */
    method AddBonds(z: Zmat, field: Field, dist: (int, int) -> real) returns (res: Outcome<Error>)
      requires EqValsSet(field.bond)
      modifies this`atom, this`bond, this`topol
      ensures var r := NewBonds(z, field, dist, old(atom));
        && (res.Pass? <==> r.Success?)
        && (res.Fail? ==> res.error == r.error)
        && (res.Pass? ==> atom == r.value.0 && bond == old(bond) + r.value.1 && topol == r.value.2)
    {
      if !z.reconnect {
        var declared := DeclaredBondTerms(z);
        bond := bond + declared;
        topol := FromFile;
        res := Pass;
      } else {
        res := Connectivity(field, dist);
        if res.Pass? {
          topol := Guessed;
        }
      }
    }

    /** One atom per z-matrix line, each adding its element's weight to the mass. */
    method AddZAtoms(zatom: seq<ZAtom>)
      requires Named(zatom)
      modifies this`atom, this`m
      ensures atom == old(atom) + ZAtoms(zatom)
      ensures m == old(m) + Mass(zatom, |zatom|)
    {
      var added, mass := NewAtoms(zatom);
      atom, m := atom + added, m + mass;
    }

    /**
     * `connectivity`: every atom takes the type of the last force-field
     * record of its name, failing with the names that have none; then every
     * pair i < j gets one bond per bond record that names its type pair and
     * accepts its distance.
     */
    method Connectivity(field: Field, dist: (int, int) -> real) returns (res: Outcome<Error>)
      requires EqValsSet(field.bond)
      modifies this`atom, this`bond
      ensures var typed := AtomTypes(old(atom), field.atom);
        && (res.Pass? <==> typed.Success?)
        && (res.Fail? ==> res.error == typed.error && bond == old(bond))
        && (res.Pass? ==> atom == typed.value && bond == old(bond) + Fresh(Inferred(Types(atom), field.bond, dist)))
    {
      var miss := TypeByName(field.atom);
      if miss != [] {
        return Fail(MissingAtomTypes(miss));
      }
      var inferred := InferredBonds(Types(atom), field.bond, dist);
      bond := bond + inferred;
      res := Pass;
    }

    /** The typing loop of `connectivity`: each atom takes the type of every record of its name in turn. */
    method TypeByName(recs: seq<AtomRec>) returns (miss: seq<string>)
      modifies this`atom
      ensures miss == Untyped(old(atom), recs, |old(atom)|)
      ensures AtomTypes(old(atom), recs) == if miss == [] then Success(atom) else Failure(MissingAtomTypes(miss))
    {
      var atoms;
      atoms, miss := TypeAll(atom, recs);
      AtomTypesOf(atom, recs, atoms);
      atom := atoms;
    }

    /**
     * `anglesdiheds`: for every atom, the angles between each pair of its
     * neighbours; then, for every bond k and every other bond l sharing its
     * first atom, the dihedrals closed by each third bond j at its second atom.
     */
    method AnglesDiheds()
      requires Arity(bond, 2)
      modifies this`angle, this`dihed
      ensures angle == old(angle) + Fresh(Angles(Ends(bond), |atom|))
      ensures dihed == old(dihed) + Fresh(Diheds(Ends(bond)))
    {
      var bs := Ends(bond);
      var angles := AngleTerms(bs, |atom|);
      var diheds := DihedTerms(bs);
      angle, dihed := angle + angles, dihed + diheds;
    }

    /**
     * `setff`: without a force field every atom becomes its own type with
     * zero charge and zero Lennard-Jones parameters; with one, the atoms are
     * typed, the bonds named and checked, and the angles, dihedrals and
     * impropers named, checked and pruned, the first fatal error ending it.
     */
    method SetFF(field: Field, dist: (int, int) -> real, theta: (int, int, int) -> real) returns (res: Result<Report, Error>)
      requires Ready(field) && Shaped(Lists())
      modifies this`atom, this`bond, this`angle, this`dihed, this`dimpr
      ensures ff == "" ==> res == Success(Report([], [], [], [])) && Lists() == old(Lists()).(atom := Defaults(old(atom)))
      ensures ff != "" ==> Applied(res, Lists()) == Assign(old(Lists()), field, dist, theta)
    {
      if ff == "" {
        DefaultTypes();
        return Success(Report([], [], [], []));
      }
      res := ApplyField(field, dist, theta);
    }

    /** `setff` with a force field: the lists replaced by what its phases produce. */
    method ApplyField(field: Field, dist: (int, int) -> real, theta: (int, int, int) -> real) returns (res: Result<Report, Error>)
      requires Ready(field) && Shaped(Lists())
      modifies this`atom, this`bond, this`angle, this`dihed, this`dimpr
      ensures Applied(res, Lists()) == Assign(old(Lists()), field, dist, theta)
    {
      var r := AssignLists(Lists(), field, dist, theta);
      if r.Failure? {
        return Failure(r.error);
      }
      atom, bond, angle, dihed, dimpr := r.value.0.atom, r.value.0.bond, r.value.0.angle, r.value.0.dihed, r.value.0.dimpr;
      return Success(r.value.1);
    }

    /** Without a force field: each atom its own type, zero charge, zero Lennard-Jones parameters. */
    method DefaultTypes()
      modifies this`atom
      ensures atom == Defaults(old(atom))
    {
      for k := 0 to |atom|
        invariant |atom| == |old(atom)|
        invariant forall e :: 0 <= e < k ==> atom[e] == DefaultAtom(old(atom)[e])
        invariant forall e :: k <= e < |atom| ==> atom[e] == old(atom)[e]
      {
        atom := atom[k := DefaultAtom(atom[k])];
      }
    }
  }
}
