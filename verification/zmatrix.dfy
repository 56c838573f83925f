/**
 * The topology a z-matrix declares (`mol.fromzmat`): one bond from every atom
 * after the first to its distance-reference atom, the extra bonds of the
 * `connect` lines, and the impropers of the `improper` lines. The file numbers
 * atoms from 1; the molecule numbers them from 0.
 */
module Zmatrix {
  import opened Elements
  import opened Topology

  /** One z-matrix line: the atom's name and the 1-based index of its distance-reference atom. */
  datatype ZAtom = ZAtom(name: string, ir: int)

  /** A parsed z-matrix file: its atoms, connect and improper lines, force-field file and `reconnect` flag. */
  datatype Zmat = Zmat(
    name: string,
    zatom: seq<ZAtom>,
    connect: seq<(int, int)>,
    improper: seq<(int, int, int, int)>,
    ff: string,
    reconnect: bool)

  /** Every atom name has a first character, which the atomic-weight lookup needs. */
  predicate Named(zatom: seq<ZAtom>)
  {
    forall i :: 0 <= i < |zatom| ==> |zatom[i].name| > 0
  }

  /** The molecular mass accumulated over the first n atoms of the z-matrix. */
  function Mass(zatom: seq<ZAtom>, n: nat): (r: real)
    requires n <= |zatom| && Named(zatom)
    ensures r >= 0.0
    ensures n > 0 ==> r >= AtomicWeight(zatom[n - 1].name)
  {
    if n == 0 then 0.0 else Mass(zatom, n - 1) + AtomicWeight(zatom[n - 1].name)
  }

  /** The bonds (i, ir - 1) for i = 1 .. n-1: each atom to its distance reference, 0-based. */
  function RefBonds(zatom: seq<ZAtom>): (r: seq<seq<int>>)
    ensures |r| == if |zatom| == 0 then 0 else |zatom| - 1
    ensures forall m :: 0 <= m < |r| ==> r[m] == [m + 1, zatom[m + 1].ir - 1]
  {
    if |zatom| == 0 then []
    else seq(|zatom| - 1, m requires 0 <= m < |zatom| - 1 => [m + 1, zatom[m + 1].ir - 1])
  }

  /** The connect lines as 0-based bonds. */
  function ConnectBonds(connect: seq<(int, int)>): (r: seq<seq<int>>)
    ensures |r| == |connect|
    ensures forall c :: 0 <= c < |r| ==> r[c] == [connect[c].0 - 1, connect[c].1 - 1]
  {
    seq(|connect|, c requires 0 <= c < |connect| => [connect[c].0 - 1, connect[c].1 - 1])
  }

  /** The bonds a z-matrix declares, in the order `fromzmat` appends them. */
  function DeclaredBonds(z: Zmat): (r: seq<seq<int>>)
    ensures |r| == (if |z.zatom| == 0 then 0 else |z.zatom| - 1) + |z.connect|
    ensures forall m :: 0 <= m < |r| ==> |r[m]| == 2
  {
    RefBonds(z.zatom) + ConnectBonds(z.connect)
  }

  /** The improper lines as 0-based dihedral index tuples. */
  function Impropers(improper: seq<(int, int, int, int)>): (r: seq<seq<int>>)
    ensures |r| == |improper|
    ensures forall c :: 0 <= c < |r| ==> |r[c]| == 4
  {
    seq(|improper|, c requires 0 <= c < |improper| =>
      var d := improper[c];
      [d.0 - 1, d.1 - 1, d.2 - 1, d.3 - 1])
  }

  /** Index tuples back in the file's 1-based numbering. */
  function OneBased(t: seq<int>): (u: seq<int>)
    ensures |u| == |t| && forall k :: 0 <= k < |t| ==> u[k] == t[k] + 1
  {
    seq(|t|, k requires 0 <= k < |t| => t[k] + 1)
  }

  // ---------------------------------------------------------------- properties

  /** Shifting the declared impropers back by one gives the file's lines. */
  lemma ImpropersRoundTrip(improper: seq<(int, int, int, int)>, c: nat)
    requires c < |improper|
    ensures var u := OneBased(Impropers(improper)[c]);
      u == [improper[c].0, improper[c].1, improper[c].2, improper[c].3]
  {
  }

  /** A declared bond from the reference column starts at the atom whose line it comes from. */
  lemma RefBondsStart(zatom: seq<ZAtom>, x: seq<int>)
    requires x in RefBonds(zatom)
    ensures |x| == 2 && 1 <= x[0] < |zatom| && x[1] == zatom[x[0]].ir - 1
  {
  }

  /** The mass is the sum of the atoms' weights: adding an atom adds its weight. */
  lemma {:induction false} MassAppend(zatom: seq<ZAtom>, a: ZAtom)
    requires Named(zatom) && |a.name| > 0
    ensures Named(zatom + [a]) && Mass(zatom + [a], |zatom| + 1) == Mass(zatom, |zatom|) + AtomicWeight(a.name)
  {
    MassPrefix(zatom + [a], zatom, |zatom|);
  }

  /** The mass of a prefix only depends on that prefix. */
  lemma {:induction false} MassPrefix(za: seq<ZAtom>, zb: seq<ZAtom>, n: nat)
    requires n <= |za| && n <= |zb| && Named(za) && Named(zb) && za[..n] == zb[..n]
    ensures Mass(za, n) == Mass(zb, n)
  {
    if n > 0 {
      assert za[..n - 1] == zb[..n - 1] by {
        assert za[..n - 1] == za[..n][..n - 1];
        assert zb[..n - 1] == zb[..n][..n - 1];
      }
      assert za[n - 1] == za[..n][n - 1] == zb[..n][n - 1] == zb[n - 1];
      MassPrefix(za, zb, n - 1);
    }
  }

  /** Every atom references the one before it, and there are no extra bonds. */
  predicate Successive(z: Zmat)
  {
    && z.connect == []
    && forall i :: 1 <= i < |z.zatom| ==> z.zatom[i].ir == i
  }

  /** A z-matrix of successive atoms declares exactly the chain (m+1, m). */
  lemma SuccessiveIsChain(z: Zmat)
    requires Successive(z) && |z.zatom| >= 1
    ensures Ends(Fresh(DeclaredBonds(z))) == Chain(|z.zatom| - 1)
  {
    var e := Ends(Fresh(DeclaredBonds(z)));
    assert DeclaredBonds(z) == RefBonds(z.zatom);
    forall m | 0 <= m < |e|
      ensures e[m] == (m + 1, m)
    {
      assert z.zatom[m + 1].ir == m + 1;
    }
  }

  /**
   * The chain a z-matrix of n successive atoms declares has n - 2 angles
   * (m, m+1, m+2) and n - 3 dihedrals (m+3, m+2, m+1, m).
   */
  lemma SuccessiveTopology(z: Zmat)
    requires Successive(z) && |z.zatom| >= 3
    ensures var bs := Ends(Fresh(DeclaredBonds(z)));
      && Angles(bs, |z.zatom|) == ChainAngleSeq(|z.zatom| - 2)
      && Diheds(bs) == ChainDihedSeq(|z.zatom| - 3)
      && |Diheds(bs)| == |z.zatom| - 3
  {
    SuccessiveIsChain(z);
    ChainAngles(|z.zatom|);
    ChainDiheds(|z.zatom|);
  }
}
