/**
 * Topology enumeration on atom indices: valence angles and dihedrals derived
 * from the bond list. The functions follow the order of the source's
 * nested loops, so that each loop of the `Mol` methods appends exactly the
 * next piece of these sequences.
 */
module Topology {
  import opened Wrappers
  import opened Names
  import opened ForceField

  /** A bond as its two atom indices (bond.i, bond.j). */
  type Pair = (int, int)

  function Ends(bonds: seq<Term>): (e: seq<Pair>)
    requires Arity(bonds, 2)
    ensures |e| == |bonds|
    ensures forall k :: 0 <= k < |bonds| ==> e[k] == (bonds[k].at[0], bonds[k].at[1])
  {
    seq(|bonds|, k requires 0 <= k < |bonds| => (bonds[k].at[0], bonds[k].at[1]))
  }

  /** Fresh unnamed terms over the given index tuples, in order. */
  function Fresh(tuples: seq<seq<int>>): (ts: seq<Term>)
    ensures |ts| == |tuples|
    ensures forall k :: 0 <= k < |tuples| ==> ts[k] == NewTerm(tuples[k])
  {
    seq(|tuples|, k requires 0 <= k < |tuples| => NewTerm(tuples[k]))
  }

  lemma FreshAppend(a: seq<seq<int>>, b: seq<seq<int>>)
    ensures Fresh(a + b) == Fresh(a) + Fresh(b)
  {
  }

  lemma FreshSnoc(a: seq<seq<int>>, x: seq<int>)
    ensures Fresh(a + [x]) == Fresh(a) + [NewTerm(x)]
  {
    FreshAppend(a, [x]);
  }

  // ---------------------------------------------------------------- neighbours

  /** Bond partners of atom i among the first q bonds, in bond-list order. */
  function NeighborsIn(bs: seq<Pair>, i: int, q: nat): (r: seq<int>)
    requires q <= |bs|
    ensures |r| <= q
  {
    if q == 0 then []
    else
      var b := bs[q - 1];
      NeighborsIn(bs, i, q - 1) + (if i == b.0 then [b.1] else if i == b.1 then [b.0] else [])
  }

  /** Bond partners of atom i, at most one per bond. */
  function Neighbors(bs: seq<Pair>, i: int): (r: seq<int>)
    ensures |r| <= |bs|
  {
    NeighborsIn(bs, i, |bs|)
  }

  /** Atoms i and x are the two ends of some bond, in either order. */
  predicate Bonded(bs: seq<Pair>, i: int, x: int)
  {
    (i, x) in bs || (x, i) in bs
  }

  lemma {:induction false} NeighborsInIff(bs: seq<Pair>, i: int, x: int, q: nat)
    requires q <= |bs|
    ensures x in NeighborsIn(bs, i, q) <==> (i, x) in bs[..q] || (x, i) in bs[..q]
  {
    if q > 0 {
      NeighborsInIff(bs, i, x, q - 1);
      assert bs[..q] == bs[..q - 1] + [bs[q - 1]];
    }
  }

  /** The neighbour list of i holds exactly the atoms bonded to i. */
  lemma NeighborsIff(bs: seq<Pair>, i: int, x: int)
    ensures x in Neighbors(bs, i) <==> Bonded(bs, i, x)
  {
    NeighborsInIff(bs, i, x, |bs|);
    assert bs[..|bs|] == bs;
  }

  // ---------------------------------------------------------------- angles

  /** Angles (neib[k], i, neib[l]) for l = k+1 .. |neib|-1. */
  function AngleRow(neib: seq<int>, i: int, k: nat): (r: seq<seq<int>>)
    requires k < |neib|
    ensures |r| == |neib| - k - 1
    ensures forall m :: 0 <= m < |r| ==> |r[m]| == 3 && r[m][1] == i
  {
    seq(|neib| - k - 1, m requires 0 <= m < |neib| - k - 1 => [neib[k], i, neib[k + 1 + m]])
  }

  /** Angles centred on i for the first k values of the outer neighbour index. */
  function AnglesUpTo(neib: seq<int>, i: int, k: nat): (r: seq<seq<int>>)
    requires k <= |neib|
    ensures forall m :: 0 <= m < |r| ==> |r[m]| == 3 && r[m][1] == i
  {
    if k == 0 then [] else AnglesUpTo(neib, i, k - 1) + AngleRow(neib, i, k - 1)
  }

  function AnglesAt(neib: seq<int>, i: int): (r: seq<seq<int>>)
    ensures forall m :: 0 <= m < |r| ==> |r[m]| == 3 && r[m][1] == i
  {
    AnglesUpTo(neib, i, |neib|)
  }

  /** Angles centred on atoms 0 .. n-1, in atom order: three atoms each, the centre one of those n. */
  function Angles(bs: seq<Pair>, n: nat): (r: seq<seq<int>>)
    ensures forall m :: 0 <= m < |r| ==> |r[m]| == 3 && 0 <= r[m][1] < n
  {
    if n == 0 then [] else Angles(bs, n - 1) + AnglesAt(Neighbors(bs, n - 1), n - 1)
  }

  lemma {:induction false} AnglesUpToCount(neib: seq<int>, i: int, k: nat)
    requires k <= |neib|
    ensures 2 * |AnglesUpTo(neib, i, k)| == k * (2 * |neib| - k - 1)
  {
    if k > 0 {
      AnglesUpToCount(neib, i, k - 1);
      calc {
        2 * |AnglesUpTo(neib, i, k)|;
        2 * |AnglesUpTo(neib, i, k - 1)| + 2 * (|neib| - k);
        (k - 1) * (2 * |neib| - k) + 2 * (|neib| - k);
        { assert (k - 1) * (2 * |neib| - k) == k * (2 * |neib| - k) - (2 * |neib| - k); }
        k * (2 * |neib| - k - 1);
      }
    }
  }

  /** A centre with d neighbours gives exactly d(d-1)/2 angles. */
  lemma AnglesAtCount(neib: seq<int>, i: int)
    ensures 2 * |AnglesAt(neib, i)| == |neib| * (|neib| - 1)
  {
    AnglesUpToCount(neib, i, |neib|);
  }

  lemma {:induction false} AnglesUpToShape(neib: seq<int>, i: int, k: nat, x: seq<int>)
    requires k <= |neib| && x in AnglesUpTo(neib, i, k)
    ensures exists p, q :: 0 <= p < k && p < q < |neib| && x == [neib[p], i, neib[q]]
  {
    if x in AnglesUpTo(neib, i, k - 1) {
      AnglesUpToShape(neib, i, k - 1, x);
    } else {
      var m :| 0 <= m < |AngleRow(neib, i, k - 1)| && AngleRow(neib, i, k - 1)[m] == x;
      assert x == [neib[k - 1], i, neib[k + m]];
    }
  }

  lemma {:induction false} AnglesUpToHas(neib: seq<int>, i: int, k: nat, p: nat, q: nat)
    requires p < k <= |neib| && p < q < |neib|
    ensures [neib[p], i, neib[q]] in AnglesUpTo(neib, i, k)
  {
    if p < k - 1 {
      AnglesUpToHas(neib, i, k - 1, p, q);
    } else {
      assert AngleRow(neib, i, p)[q - p - 1] == [neib[p], i, neib[q]];
    }
  }

  /** An angle (a, i, b) has its centre i bonded to both of its ends, and i is one of the n atoms. */
  lemma {:induction false} AngleEndsBonded(bs: seq<Pair>, n: nat, x: seq<int>)
    requires x in Angles(bs, n)
    ensures |x| == 3 && 0 <= x[1] < n
    ensures Bonded(bs, x[1], x[0]) && Bonded(bs, x[1], x[2])
  {
    if x in Angles(bs, n - 1) {
      AngleEndsBonded(bs, n - 1, x);
    } else {
      var neib := Neighbors(bs, n - 1);
      AnglesUpToShape(neib, n - 1, |neib|, x);
      NeighborsIff(bs, n - 1, x[0]);
      NeighborsIff(bs, n - 1, x[2]);
    }
  }

  /**
   * Every pair of positions k < l in the neighbour list of a centre i < n gives
   * the angle (neib[k], i, neib[l]).
   */
  lemma {:induction false} AngleForNeighborPair(bs: seq<Pair>, n: nat, i: nat, k: nat, l: nat)
    requires i < n && k < l < |Neighbors(bs, i)|
    ensures [Neighbors(bs, i)[k], i, Neighbors(bs, i)[l]] in Angles(bs, n)
  {
    assert Angles(bs, n) == Angles(bs, n - 1) + AnglesAt(Neighbors(bs, n - 1), n - 1);
    if i < n - 1 {
      AngleForNeighborPair(bs, n - 1, i, k, l);
    } else {
      AnglesUpToHas(Neighbors(bs, i), i, |Neighbors(bs, i)|, k, l);
    }
  }

  // ---------------------------------------------------------------- dihedrals

  /**
   * For bonds k and l sharing bond k's first atom (tested first against bond l's
   * first atom, then its second), the far atom of bond l.
   */
  function OuterAtom(bs: seq<Pair>, k: nat, l: nat): Option<int>
    requires k < |bs| && l < |bs|
  {
    if k == l then None
    else if bs[k].0 == bs[l].0 then Some(bs[l].1)
    else if bs[k].0 == bs[l].1 then Some(bs[l].0)
    else None
  }

  /** The dihedral closed by bond j at bond k's second atom, if j continues the chain. */
  function DihedAt(bs: seq<Pair>, k: nat, l: nat, a: int, j: nat): seq<seq<int>>
    requires k < |bs| && l < |bs| && j < |bs|
  {
    if j == k || j == l then []
    else if bs[k].1 == bs[j].0 then [[a, bs[k].0, bs[k].1, bs[j].1]]
    else if bs[k].1 == bs[j].1 then [[a, bs[k].0, bs[k].1, bs[j].0]]
    else []
  }

  function DihedsJ(bs: seq<Pair>, k: nat, l: nat, a: int, jn: nat): seq<seq<int>>
    requires k < |bs| && l < |bs| && jn <= |bs|
  {
    if jn == 0 then [] else DihedsJ(bs, k, l, a, jn - 1) + DihedAt(bs, k, l, a, jn - 1)
  }

  function DihedsL(bs: seq<Pair>, k: nat, ln: nat): seq<seq<int>>
    requires k < |bs| && ln <= |bs|
  {
    if ln == 0 then []
    else DihedsL(bs, k, ln - 1) + DihedsFrom(bs, k, ln - 1)
  }

  /** The dihedrals of the bond pair (k, l): none unless l shares bond k's first atom. */
  function DihedsFrom(bs: seq<Pair>, k: nat, l: nat): seq<seq<int>>
    requires k < |bs| && l < |bs|
  {
    match OuterAtom(bs, k, l)
    case None => []
    case Some(a) => DihedsJ(bs, k, l, a, |bs|)
  }

  function DihedsK(bs: seq<Pair>, kn: nat): seq<seq<int>>
    requires kn <= |bs|
  {
    if kn == 0 then [] else DihedsK(bs, kn - 1) + DihedsL(bs, kn - 1, |bs|)
  }

  /** All dihedrals, in the order of the source's loops over k, l and j: four atoms each, the middle two a bond. */
  function Diheds(bs: seq<Pair>): (r: seq<seq<int>>)
    ensures forall x :: x in r ==> |x| == 4 && (x[1], x[2]) in bs
  {
    DihedsKShape(bs);
    DihedsK(bs, |bs|)
  }

  /**
   * x is the dihedral built from three distinct bonds: bond k gives its middle
   * atoms (x[1], x[2]) = (bond[k].i, bond[k].j); bond l shares bond[k].i and x[0]
   * is its other end; bond j shares bond[k].j and x[3] is its other end. A bond's
   * first atom is tried before its second, as in the source.
   */
  ghost predicate DihedVia(bs: seq<Pair>, k: int, l: int, j: int, x: seq<int>)
  {
    && 0 <= k < |bs| && 0 <= l < |bs| && 0 <= j < |bs|
    && k != l && j != k && j != l
    && |x| == 4 && x[1] == bs[k].0 && x[2] == bs[k].1
    && ((bs[l].0 == bs[k].0 && x[0] == bs[l].1) || (bs[l].0 != bs[k].0 && bs[l].1 == bs[k].0 && x[0] == bs[l].0))
    && ((bs[j].0 == bs[k].1 && x[3] == bs[j].1) || (bs[j].0 != bs[k].1 && bs[j].1 == bs[k].1 && x[3] == bs[j].0))
  }

  lemma {:induction false} DihedsJIff(bs: seq<Pair>, k: nat, l: nat, a: int, jn: nat, x: seq<int>)
    requires k < |bs| && l < |bs| && jn <= |bs| && OuterAtom(bs, k, l) == Some(a)
    ensures x in DihedsJ(bs, k, l, a, jn) <==> exists j :: 0 <= j < jn && DihedVia(bs, k, l, j, x)
  {
    if jn > 0 {
      DihedsJIff(bs, k, l, a, jn - 1, x);
      var j := jn - 1;
      if x in DihedAt(bs, k, l, a, j) {
        assert DihedVia(bs, k, l, j, x);
      }
      if DihedVia(bs, k, l, j, x) {
        assert x == [a, bs[k].0, bs[k].1, x[3]];
        assert x in DihedAt(bs, k, l, a, j);
      }
    }
  }

  lemma DihedsFromIff(bs: seq<Pair>, k: nat, l: nat, x: seq<int>)
    requires k < |bs| && l < |bs|
    ensures x in DihedsFrom(bs, k, l) <==> exists j :: 0 <= j < |bs| && DihedVia(bs, k, l, j, x)
  {
    match OuterAtom(bs, k, l)
    case None =>
      assert forall j :: !DihedVia(bs, k, l, j, x);
    case Some(a) =>
      DihedsJIff(bs, k, l, a, |bs|, x);
  }

  lemma {:induction false} DihedsLIff(bs: seq<Pair>, k: nat, ln: nat, x: seq<int>)
    requires k < |bs| && ln <= |bs|
    ensures x in DihedsL(bs, k, ln) <==> exists l, j :: 0 <= l < ln && DihedVia(bs, k, l, j, x)
  {
    if ln > 0 {
      var l := ln - 1;
      assert DihedsL(bs, k, ln) == DihedsL(bs, k, l) + DihedsFrom(bs, k, l);
      DihedsLIff(bs, k, l, x);
      DihedsFromIff(bs, k, l, x);
      if x in DihedsL(bs, k, ln) {
        if x in DihedsL(bs, k, l) {
          var l', j' :| 0 <= l' < l && DihedVia(bs, k, l', j', x);
          assert 0 <= l' < ln && DihedVia(bs, k, l', j', x);
        } else {
          var j :| 0 <= j < |bs| && DihedVia(bs, k, l, j, x);
          assert 0 <= l < ln && DihedVia(bs, k, l, j, x);
        }
      }
      if exists l', j' :: 0 <= l' < ln && DihedVia(bs, k, l', j', x) {
        var l', j' :| 0 <= l' < ln && DihedVia(bs, k, l', j', x);
        if l' < l {
          assert x in DihedsL(bs, k, l);
        } else {
          assert 0 <= j' < |bs| && DihedVia(bs, k, l, j', x);
          assert x in DihedsFrom(bs, k, l);
        }
      }
    }
  }

  /** Some pair of bonds l, j completes a dihedral over bond k. */
  ghost predicate DihedOver(bs: seq<Pair>, k: int, x: seq<int>)
  {
    exists l, j :: DihedVia(bs, k, l, j, x)
  }

  lemma DihedsLAll(bs: seq<Pair>, k: nat, x: seq<int>)
    requires k < |bs|
    ensures x in DihedsL(bs, k, |bs|) <==> DihedOver(bs, k, x)
  {
    DihedsLIff(bs, k, |bs|, x);
  }

  lemma {:induction false} DihedsKIff(bs: seq<Pair>, kn: nat, x: seq<int>)
    requires kn <= |bs|
    ensures x in DihedsK(bs, kn) <==> exists k :: 0 <= k < kn && DihedOver(bs, k, x)
  {
    if kn > 0 {
      var k := kn - 1;
      DihedsKIff(bs, k, x);
      DihedsLAll(bs, k, x);
      assert DihedsK(bs, kn) == DihedsK(bs, k) + DihedsL(bs, k, |bs|);
    }
  }

  lemma DihedsKShape(bs: seq<Pair>)
    ensures forall x :: x in DihedsK(bs, |bs|) ==> |x| == 4 && (x[1], x[2]) in bs
  {
    forall x | x in DihedsK(bs, |bs|)
      ensures |x| == 4 && (x[1], x[2]) in bs
    {
      DihedsKIff(bs, |bs|, x);
      var k :| 0 <= k < |bs| && DihedOver(bs, k, x);
      var l, j :| DihedVia(bs, k, l, j, x);
      assert (x[1], x[2]) == bs[k];
    }
  }

  /**
   * A quadruple is emitted exactly when three distinct bonds k, l, j build it as
   * DihedVia says. Nothing forbids x[0] == x[3]: a three-membered ring gives (c, a, b, c).
   */
  lemma DihedsIff(bs: seq<Pair>, x: seq<int>)
    ensures x in Diheds(bs) <==> exists k, l, j :: DihedVia(bs, k, l, j, x)
  {
    DihedsKIff(bs, |bs|, x);
    if exists k, l, j :: DihedVia(bs, k, l, j, x) {
      var k, l, j :| DihedVia(bs, k, l, j, x);
      assert DihedOver(bs, k, x);
    }
  }

  /** The ring 0-1, 1-2, 2-0 yields the dihedral (2, 0, 1, 2), whose outer atoms coincide. */
  lemma RingDihedral()
    ensures [2, 0, 1, 2] in Diheds([(0, 1), (1, 2), (2, 0)])
  {
    var bs: seq<Pair> := [(0, 1), (1, 2), (2, 0)];
    assert DihedVia(bs, 0, 2, 1, [2, 0, 1, 2]);
    DihedsIff(bs, [2, 0, 1, 2]);
  }

  // ---------------------------------------------------------------- linear chains

  /** The bonds (m+1, m) for m < nb: a chain of nb + 1 atoms, as a z-matrix of successive atoms gives. */
  function Chain(nb: nat): (bs: seq<Pair>)
    ensures |bs| == nb && forall m :: 0 <= m < nb ==> bs[m] == (m + 1, m)
  {
    seq(nb, m => (m + 1, m))
  }

  lemma {:induction false} ChainNeighborsIn(nb: nat, i: int, q: nat)
    requires q <= nb
    ensures NeighborsIn(Chain(nb), i, q) ==
      (if 1 <= i <= q then [i - 1] else []) + (if 0 <= i < q then [i + 1] else [])
  {
    if q > 0 {
      ChainNeighborsIn(nb, i, q - 1);
    }
  }

  function ChainAngleSeq(c: nat): (r: seq<seq<int>>)
    ensures |r| == c
  {
    seq(c, m => [m, m + 1, m + 2])
  }

  lemma ChainAngleSeqStep(c: nat)
    ensures ChainAngleSeq(c + 1) == ChainAngleSeq(c) + [[c, c + 1, c + 2]]
  {
  }

  /** How many of atoms 0 .. n-1 of a chain of nb bonds are the centre of an angle. */
  function ChainAngleCount(nb: nat, n: nat): nat
  {
    if n <= 1 || nb == 0 then 0 else if n <= nb then n - 1 else nb - 1
  }

  /** In a chain, atom i has neighbours i-1 and i+1 where they exist. */
  lemma ChainNeighbors(nb: nat, i: int)
    ensures Neighbors(Chain(nb), i) ==
      (if 1 <= i <= nb then [i - 1] else []) + (if 0 <= i < nb then [i + 1] else [])
  {
    ChainNeighborsIn(nb, i, nb);
  }

  lemma ChainAnglesAt(nb: nat, i: nat)
    requires i <= nb
    ensures AnglesAt(Neighbors(Chain(nb), i), i) == if 1 <= i < nb then [[i - 1, i, i + 1]] else []
  {
    ChainNeighbors(nb, i);
    var neib := Neighbors(Chain(nb), i);
    if 1 <= i < nb {
      assert neib == [i - 1, i + 1];
      assert AngleRow(neib, i, 0) == [[i - 1, i, i + 1]];
      assert AnglesUpTo(neib, i, 1) == [[i - 1, i, i + 1]];
      assert AngleRow(neib, i, 1) == [];
    } else if nb > 0 {
      assert |neib| == 1;
      assert AngleRow(neib, i, 0) == [];
      assert AnglesUpTo(neib, i, 1) == [];
    } else {
      assert neib == [];
    }
  }

  lemma {:induction false} ChainAnglesUpTo(nb: nat, n: nat)
    requires 1 <= nb && n <= nb + 1
    ensures Angles(Chain(nb), n) == ChainAngleSeq(ChainAngleCount(nb, n))
  {
    if n > 0 {
      var i := n - 1;
      ChainAnglesUpTo(nb, i);
      ChainAnglesAt(nb, i);
      if 1 <= i < nb {
        assert ChainAngleCount(nb, n) == ChainAngleCount(nb, i) + 1 == i;
        ChainAngleSeqStep(i - 1);
      } else {
        assert ChainAngleCount(nb, n) == ChainAngleCount(nb, i);
      }
    }
  }

  /** A chain of n atoms has exactly n - 2 angles, (m, m+1, m+2) in order. */
  lemma ChainAngles(n: nat)
    requires n >= 2
    ensures Angles(Chain(n - 1), n) == ChainAngleSeq(n - 2)
  {
    ChainAnglesUpTo(n - 1, n);
    assert ChainAngleCount(n - 1, n) == n - 2;
  }

  lemma {:induction false} ChainDihedsJ(nb: nat, k: nat, jn: nat)
    requires k + 1 < nb && jn <= nb
    ensures OuterAtom(Chain(nb), k, k + 1) == Some(k + 2)
    ensures DihedsJ(Chain(nb), k, k + 1, k + 2, jn) == if 1 <= k <= jn then [[k + 2, k + 1, k, k - 1]] else []
  {
    if jn > 0 {
      var j := jn - 1;
      assert DihedsJ(Chain(nb), k, k + 1, k + 2, jn) ==
        DihedsJ(Chain(nb), k, k + 1, k + 2, j) + DihedAt(Chain(nb), k, k + 1, k + 2, j);
      ChainDihedsJ(nb, k, j);
      ChainDihedAt(nb, k, j);
    }
  }

  /** Only the bond before bond k closes the dihedral around it. */
  lemma ChainDihedAt(nb: nat, k: nat, j: nat)
    requires k + 1 < nb && j < nb
    ensures DihedAt(Chain(nb), k, k + 1, k + 2, j) == if j + 1 == k then [[k + 2, k + 1, k, k - 1]] else []
  {
    assert Chain(nb)[k] == (k + 1, k) && Chain(nb)[j] == (j + 1, j);
  }

  lemma {:induction false} ChainDihedsL(nb: nat, k: nat, ln: nat)
    requires k < nb && ln <= nb
    ensures DihedsL(Chain(nb), k, ln) == if 1 <= k && k + 1 < ln then [[k + 2, k + 1, k, k - 1]] else []
  {
    if ln > 0 {
      ChainDihedsL(nb, k, ln - 1);
      var l := ln - 1;
      if l == k + 1 {
        ChainDihedsJ(nb, k, nb);
      } else {
        assert OuterAtom(Chain(nb), k, l) == None;
      }
    }
  }

  function ChainDihedSeq(c: nat): (r: seq<seq<int>>)
    ensures |r| == c
  {
    seq(c, m => [m + 3, m + 2, m + 1, m])
  }

  lemma ChainDihedSeqStep(c: nat)
    ensures ChainDihedSeq(c + 1) == ChainDihedSeq(c) + [[c + 3, c + 2, c + 1, c]]
  {
  }

  /** How many of bonds 0 .. kn-1 of a chain of nb bonds hold a dihedral in the middle. */
  function ChainDihedCount(nb: nat, kn: nat): nat
  {
    if kn <= 1 || nb < 3 then 0 else if kn <= nb - 2 then kn - 1 else nb - 2
  }

  /** Bond k of a chain adds the dihedral around it when it has a bond on either side. */
  lemma ChainDihedsKStep(nb: nat, k: nat)
    requires k < nb
    ensures DihedsK(Chain(nb), k + 1) ==
      DihedsK(Chain(nb), k) + if 1 <= k && k + 1 < nb then [[k + 2, k + 1, k, k - 1]] else []
  {
    ChainDihedsL(nb, k, nb);
  }

  lemma ChainDihedCountStep(nb: nat, k: nat)
    requires k < nb
    ensures 1 <= k && k + 1 < nb ==> ChainDihedCount(nb, k) == k - 1 && ChainDihedCount(nb, k + 1) == k
    ensures !(1 <= k && k + 1 < nb) ==> ChainDihedCount(nb, k + 1) == ChainDihedCount(nb, k)
  {
  }

  lemma {:induction false} ChainDihedsK(nb: nat, kn: nat)
    requires kn <= nb
    ensures DihedsK(Chain(nb), kn) == ChainDihedSeq(ChainDihedCount(nb, kn))
  {
    if kn > 0 {
      var k := kn - 1;
      ChainDihedsKStep(nb, k);
      ChainDihedsK(nb, k);
      ChainDihedCountStep(nb, k);
      if 1 <= k && k + 1 < nb {
        ChainDihedSeqStep(k - 1);
      }
    } else {
      assert ChainDihedSeq(0) == [];
    }
  }

  /** A chain of n atoms has exactly n - 3 dihedrals, (m+3, m+2, m+1, m) in order. */
  lemma ChainDiheds(n: nat)
    requires n >= 3
    ensures Diheds(Chain(n - 1)) == ChainDihedSeq(n - 3)
  {
    ChainDihedsK(n - 1, n - 1);
    assert ChainDihedCount(n - 1, n - 1) == n - 3;
  }
}
