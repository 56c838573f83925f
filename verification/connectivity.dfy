/**
 * Guessing the bonds of a molecule from its geometry (`mol.connectivity`):
 * every atom is typed by the force field, then every pair i < j of atoms is
 * tried against every bond record, and each record whose type pair matches
 * and whose equilibrium length the observed distance is within tolerance of
 * contributes one bond (i, j).
 */
module Connectivity {
  import opened Wrappers
  import opened Names
  import opened ForceField
  import opened Matching

  /** An atom given the type of the last record of its name (only the type: charges and the rest come later). */
  function TypeOnly(a: Atom, recs: seq<AtomRec>): Atom
  {
    match LastAtomRec(recs, a.name, |recs|)
    case None => a
    case Some(q) => a.(typ := Some(recs[q].typ))
  }

  /** The typing loop of `connectivity`: every atom typed, or the names of the atoms without a record. */
  function AtomTypes(atoms: seq<Atom>, recs: seq<AtomRec>): (r: Result<seq<Atom>, Error>)
    ensures r.Success? ==> |r.value| == |atoms| && AllTyped(r.value)
  {
    var miss := Untyped(atoms, recs, |atoms|);
    if miss == [] then
      assert forall k :: 0 <= k < |atoms| ==> atoms[k].name !in miss;
      Success(seq(|atoms|, k requires 0 <= k < |atoms| => TypeOnly(atoms[k], recs)))
    else Failure(MissingAtomTypes(miss))
  }

  /**
   * The typing loop succeeds exactly when every atom's name has a record, and
   * then changes nothing of an atom but its type.
   */
  lemma AtomTypesMeaning(atoms: seq<Atom>, recs: seq<AtomRec>)
    ensures AtomTypes(atoms, recs).Success? <==>
      forall k :: 0 <= k < |atoms| ==> exists q :: 0 <= q < |recs| && recs[q].name == atoms[k].name
    ensures AtomTypes(atoms, recs).Success? ==>
      forall k :: 0 <= k < |atoms| ==> AtomTypes(atoms, recs).value[k] == atoms[k].(typ := AtomTypes(atoms, recs).value[k].typ)
  {
    AtomPhaseOk(atoms, recs);
  }

  /** The typing loop's outcome, given the list of atoms it builds. */
  lemma AtomTypesOf(atoms: seq<Atom>, recs: seq<AtomRec>, typed: seq<Atom>)
    requires |typed| == |atoms| && forall k :: 0 <= k < |atoms| ==> typed[k] == TypeOnly(atoms[k], recs)
    ensures var miss := Untyped(atoms, recs, |atoms|);
      AtomTypes(atoms, recs) == if miss == [] then Success(typed) else Failure(MissingAtomTypes(miss))
  {
    if Untyped(atoms, recs, |atoms|) == [] {
      assert typed == AtomTypes(atoms, recs).value;
    }
  }

  /** The name of the candidate bond (i, j): the two atoms' types joined. */
  function PairName(types: seq<string>, i: nat, j: nat): string
    requires i < |types| && j < |types|
  {
    Join([types[i], types[j]])
  }

  /** Record q names the pair, in either order, and accepts the observed distance r. */
  predicate Accepts(recs: seq<Rec>, q: nat, name: string, r: real)
    requires q < |recs| && EqValsSet(recs)
  {
    NameMatches(name, recs[q].labels) && BondCheckVal(recs[q], r)
  }

  /** How many of the first m records accept the pair. */
  function PassCount(recs: seq<Rec>, name: string, r: real, m: nat): nat
    requires m <= |recs| && EqValsSet(recs)
  {
    if m == 0 then 0 else PassCount(recs, name, r, m - 1) + if Accepts(recs, m - 1, name, r) then 1 else 0
  }

  function Copies(x: seq<int>, c: nat): (s: seq<seq<int>>)
    ensures |s| == c && forall k :: 0 <= k < c ==> s[k] == x
  {
    seq(c, _ => x)
  }

  /** The bonds found for atom i against atoms i+1 .. jn-1, one per accepting record. */
  function Row(types: seq<string>, recs: seq<Rec>, dist: (int, int) -> real, i: nat, jn: nat): seq<seq<int>>
    requires i < |types| && jn <= |types| && EqValsSet(recs)
  {
    if jn <= i + 1 then []
    else
      var j := jn - 1;
      Row(types, recs, dist, i, j) + Copies([i, j], PassCount(recs, PairName(types, i, j), dist(i, j), |recs|))
  }

  /** The bonds found for atoms 0 .. rows-1, in the order of the source's loops. */
  function InferredUpTo(types: seq<string>, recs: seq<Rec>, dist: (int, int) -> real, rows: nat): seq<seq<int>>
    requires rows <= |types| && EqValsSet(recs)
  {
    if rows == 0 then [] else InferredUpTo(types, recs, dist, rows - 1) + Row(types, recs, dist, rows - 1, |types|)
  }

  /** All the bonds `connectivity` appends; the last atom starts no row of its own. */
  function Inferred(types: seq<string>, recs: seq<Rec>, dist: (int, int) -> real): seq<seq<int>>
    requires EqValsSet(recs)
  {
    InferredUpTo(types, recs, dist, if |types| == 0 then 0 else |types| - 1)
  }

  // ---------------------------------------------------------------- properties

  lemma PassCountPositive(recs: seq<Rec>, name: string, r: real, m: nat)
    requires m <= |recs| && EqValsSet(recs)
    ensures PassCount(recs, name, r, m) > 0 <==> exists q :: 0 <= q < m && Accepts(recs, q, name, r)
  {
    if m > 0 {
      PassCountPositive(recs, name, r, m - 1);
      if Accepts(recs, m - 1, name, r) {
        assert exists q :: 0 <= q < m && Accepts(recs, q, name, r);
      }
    }
  }

  lemma CopiesCount(x: seq<int>, c: nat, y: seq<int>)
    ensures multiset(Copies(x, c))[y] == if x == y then c else 0
  {
    if c > 0 {
      CopiesCount(x, c - 1, y);
      assert Copies(x, c) == Copies(x, c - 1) + [x];
    }
  }

  lemma {:induction false} RowCount(types: seq<string>, recs: seq<Rec>, dist: (int, int) -> real, i: nat, jn: nat, a: int, b: int)
    requires i < |types| && jn <= |types| && EqValsSet(recs)
    ensures multiset(Row(types, recs, dist, i, jn))[[a, b]] ==
      if a == i && i < b < jn then PairCount(types, recs, dist, i, b) else 0
  {
    if jn > i + 1 {
      var j := jn - 1;
      var pre, c := Row(types, recs, dist, i, j), PairCount(types, recs, dist, i, j);
      assert Row(types, recs, dist, i, jn) == pre + Copies([i, j], c);
      assert multiset(pre + Copies([i, j], c))[[a, b]] == multiset(pre)[[a, b]] + multiset(Copies([i, j], c))[[a, b]];
      RowCount(types, recs, dist, i, j, a, b);
      CopiesCount([i, j], c, [a, b]);
      assert [i, j] == [a, b] <==> a == i && b == j;
    }
  }

  /** How many records accept the pair (a, b) of atoms at their observed distance. */
  function PairCount(types: seq<string>, recs: seq<Rec>, dist: (int, int) -> real, a: nat, b: nat): nat
    requires a < |types| && b < |types| && EqValsSet(recs)
  {
    PassCount(recs, PairName(types, a, b), dist(a, b), |recs|)
  }

  lemma {:induction false} InferredUpToCount(types: seq<string>, recs: seq<Rec>, dist: (int, int) -> real, rows: nat, a: int, b: int)
    requires rows <= |types| && EqValsSet(recs)
    ensures multiset(InferredUpTo(types, recs, dist, rows))[[a, b]] ==
      if 0 <= a < rows && a < b < |types| then PairCount(types, recs, dist, a, b) else 0
  {
    if rows > 0 {
      var pre, row := InferredUpTo(types, recs, dist, rows - 1), Row(types, recs, dist, rows - 1, |types|);
      assert InferredUpTo(types, recs, dist, rows) == pre + row;
      assert multiset(pre + row)[[a, b]] == multiset(pre)[[a, b]] + multiset(row)[[a, b]];
      InferredUpToCount(types, recs, dist, rows - 1, a, b);
      RowCount(types, recs, dist, rows - 1, |types|, a, b);
      if a == rows - 1 {
        assert multiset(pre)[[a, b]] == 0;
      } else {
        assert multiset(row)[[a, b]] == 0;
      }
    }
  }

  /**
   * The pair (i, j) appears in the inferred bonds exactly as many times as
   * there are records accepting it: duplicate records give duplicate bonds.
   */
  lemma InferredCount(types: seq<string>, recs: seq<Rec>, dist: (int, int) -> real, i: int, j: int)
    requires EqValsSet(recs)
    ensures multiset(Inferred(types, recs, dist))[[i, j]] ==
      if 0 <= i < j < |types| then PairCount(types, recs, dist, i, j) else 0
  {
    InferredUpToCount(types, recs, dist, if |types| == 0 then 0 else |types| - 1, i, j);
  }

  lemma {:induction false} RowShape(types: seq<string>, recs: seq<Rec>, dist: (int, int) -> real, i: nat, jn: nat, x: seq<int>)
    requires i < |types| && jn <= |types| && EqValsSet(recs) && x in Row(types, recs, dist, i, jn)
    ensures |x| == 2 && x[0] == i < x[1] < jn
  {
    var j := jn - 1;
    if x in Row(types, recs, dist, i, j) {
      RowShape(types, recs, dist, i, j, x);
    }
  }

  lemma {:induction false} InferredUpToShape(types: seq<string>, recs: seq<Rec>, dist: (int, int) -> real, rows: nat, x: seq<int>)
    requires rows <= |types| && EqValsSet(recs) && x in InferredUpTo(types, recs, dist, rows)
    ensures |x| == 2 && 0 <= x[0] < x[1] < |types|
  {
    if x in InferredUpTo(types, recs, dist, rows - 1) {
      InferredUpToShape(types, recs, dist, rows - 1, x);
    } else {
      RowShape(types, recs, dist, rows - 1, |types|, x);
    }
  }

  /** Every inferred bond is a pair of atom indices. */
  lemma InferredPairs(types: seq<string>, recs: seq<Rec>, dist: (int, int) -> real)
    requires EqValsSet(recs)
    ensures forall x :: x in Inferred(types, recs, dist) ==> |x| == 2 && 0 <= x[0] < x[1] < |types|
  {
    forall x | x in Inferred(types, recs, dist)
      ensures |x| == 2 && 0 <= x[0] < x[1] < |types|
    {
      InferredUpToShape(types, recs, dist, if |types| == 0 then 0 else |types| - 1, x);
    }
  }

  /**
   * An inferred bond joins atoms i < j, and (i, j) is inferred exactly when some
   * record names their type pair, forwards or reversed, and accepts their distance.
   */
  lemma InferredIff(types: seq<string>, recs: seq<Rec>, dist: (int, int) -> real, x: seq<int>)
    requires EqValsSet(recs)
    ensures x in Inferred(types, recs, dist) <==>
      && |x| == 2 && 0 <= x[0] < x[1] < |types|
      && exists q :: 0 <= q < |recs| && Accepts(recs, q, PairName(types, x[0], x[1]), dist(x[0], x[1]))
  {
    if x in Inferred(types, recs, dist) {
      InferredUpToShape(types, recs, dist, if |types| == 0 then 0 else |types| - 1, x);
    }
    if |x| == 2 {
      assert x == [x[0], x[1]];
      InferredCount(types, recs, dist, x[0], x[1]);
      if 0 <= x[0] < x[1] < |types| {
        PassCountPositive(recs, PairName(types, x[0], x[1]), dist(x[0], x[1]), |recs|);
      }
    }
  }

  /**
   * With dash-free type labels and two-label bond records, the scan treats a
   * pair of types the same in either order.
   */
  lemma {:induction false} PassCountSymmetric(recs: seq<Rec>, a: string, b: string, r: real, m: nat)
    requires m <= |recs| && EqValsSet(recs)
    requires DashFree(a) && DashFree(b)
    requires forall q :: 0 <= q < |recs| ==> |recs[q].labels| == 2 && AllDashFree(recs[q].labels)
    ensures PassCount(recs, Join([a, b]), r, m) == PassCount(recs, Join([b, a]), r, m)
  {
    if m > 0 {
      PassCountSymmetric(recs, a, b, r, m - 1);
      ReverseAt([a, b]);
      assert Reverse([a, b]) == [b, a];
      MatchReversed([a, b], recs[m - 1].labels);
    }
  }
}
