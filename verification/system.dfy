/**
 * The molecular system (`class system`): the molecular species, the lists of
 * distinct atom, bond, angle, dihedral and improper types over all of them,
 * the type index of every atom and term, and the van der Waals pair table.
 */
module System {
  import opened Wrappers
  import opened ForceField
  import opened Matching
  import opened Molecule
  import opened TypeList
  import opened Vdw

  function AtomKey(a: Atom): string { a.name }
  function TermKey(t: Term): string { t.name }
  function AtomWithIndex(a: Atom, i: int): Atom { a.(ityp := i) }
  function TermWithIndex(t: Term, i: int): Term { t.(ityp := i) }

  /** The type lists of a system: atom, bond, angle, dihedral and improper types. */
  datatype Types = Types(at: seq<Atom>, bd: seq<Term>, an: seq<Term>, dh: seq<Term>, di: seq<Term>)

  /** Two molecules' lists one after the other. */
  function Cat(t1: Topo, t2: Topo): Topo
  {
    Topo(t1.atom + t2.atom, t1.bond + t2.bond, t1.angle + t2.angle, t1.dihed + t2.dihed, t1.dimpr + t2.dimpr)
  }

  /** The lists of the first n molecules, molecule after molecule. */
  function Joined(ts: seq<Topo>, n: nat): Topo
    requires n <= |ts|
  {
    if n == 0 then Topo([], [], [], [], []) else Cat(Joined(ts, n - 1), ts[n - 1])
  }

  /** The lists of every molecule, as values. */
  function Species(spec: seq<Mol>): seq<Topo>
    reads spec
  {
    seq(|spec|, p requires 0 <= p < |spec| reads spec => spec[p].Lists())
  }

  /** `build_type_list` on each of the five lists. */
  function BuildTypes(ty: Types, t: Topo): Types
  {
    Types(AddTypes(ty.at, t.atom, AtomKey), AddTypes(ty.bd, t.bond, TermKey), AddTypes(ty.an, t.angle, TermKey),
          AddTypes(ty.dh, t.dihed, TermKey), AddTypes(ty.di, t.dimpr, TermKey))
  }

  /** Every atom and term numbered by the type list of its kind. */
  function NumberLists(t: Topo, ty: Types): Topo
  {
    Topo(NumberedAll(t.atom, ty.at, AtomKey, AtomWithIndex), NumberedAll(t.bond, ty.bd, TermKey, TermWithIndex),
         NumberedAll(t.angle, ty.an, TermKey, TermWithIndex), NumberedAll(t.dihed, ty.dh, TermKey, TermWithIndex),
         NumberedAll(t.dimpr, ty.di, TermKey, TermWithIndex))
  }

  /** The type lists after numbering the lists' atoms and terms. */
  function MarkTypes(ty: Types, t: Topo): Types
  {
    Types(Marked(ty.at, t.atom, AtomKey, AtomWithIndex), Marked(ty.bd, t.bond, TermKey, TermWithIndex),
          Marked(ty.an, t.angle, TermKey, TermWithIndex), Marked(ty.dh, t.dihed, TermKey, TermWithIndex),
          Marked(ty.di, t.dimpr, TermKey, TermWithIndex))
  }

  /** Entry names of two type lists agree kind by kind. */
  predicate SameNames(t1: Types, t2: Types)
  {
    && |t1.at| == |t2.at| && (forall i :: 0 <= i < |t1.at| ==> t1.at[i].name == t2.at[i].name)
    && |t1.bd| == |t2.bd| && (forall i :: 0 <= i < |t1.bd| ==> t1.bd[i].name == t2.bd[i].name)
    && |t1.an| == |t2.an| && (forall i :: 0 <= i < |t1.an| ==> t1.an[i].name == t2.an[i].name)
    && |t1.dh| == |t2.dh| && (forall i :: 0 <= i < |t1.dh| ==> t1.dh[i].name == t2.dh[i].name)
    && |t1.di| == |t2.di| && (forall i :: 0 <= i < |t1.di| ==> t1.di[i].name == t2.di[i].name)
  }

  class System {
    const spec: seq<Mol>
    var attype: seq<Atom>
    var bdtype: seq<Term>
    var antype: seq<Term>
    var dhtype: seq<Term>
    var ditype: seq<Term>
    var vdw: seq<VdwPair>

    function TypeLists(): Types
      reads this
    {
      Types(attype, bdtype, antype, dhtype, ditype)
    }

    /** A system of the given species, its type lists and pair table still empty. */
    constructor (spec: seq<Mol>)
      ensures this.spec == spec && TypeLists() == Types([], [], [], [], []) && vdw == []
    {
      this.spec := spec;
      attype, bdtype, antype, dhtype, ditype := [], [], [], [], [];
      vdw := [];
    }

    /** The first loop of `system.__init__`: the type lists over every species in turn. */
    method BuildTypeLists()
      modifies this`attype, this`bdtype, this`antype, this`dhtype, this`ditype
      ensures TypeLists() == BuildTypes(old(TypeLists()), Joined(Species(spec), |spec|))
    {
      ghost var ty0 := TypeLists();
      ghost var ts := Species(spec);
      for k := 0 to |spec|
        invariant TypeLists() == BuildTypes(ty0, Joined(ts, k))
      {
        BuildConcat(ty0, Joined(ts, k), ts[k]);
        AddLists(ts[k], spec[k]);
      }
    }

    /** One species' share of the first loop: its lists are `t`. */
    method AddLists(ghost t: Topo, sp: Mol)
      requires sp.Lists() == t
      modifies this`attype, this`bdtype, this`antype, this`dhtype, this`ditype
      ensures TypeLists() == BuildTypes(old(TypeLists()), t)
    {
      attype := BuildTypeList(sp.atom, attype, AtomKey);
      bdtype := BuildTypeList(sp.bond, bdtype, TermKey);
      antype := BuildTypeList(sp.angle, antype, TermKey);
      dhtype := BuildTypeList(sp.dihed, dhtype, TermKey);
      ditype := BuildTypeList(sp.dimpr, ditype, TermKey);
    }

    /**
     * The second loop of `system.__init__`: every atom and term of every
     * species, and the type list entry of its name, get that entry's index.
     */
    method AssignTypeIndexes()
      requires forall p, q :: 0 <= p < q < |spec| ==> spec[p] != spec[q]
      modifies spec`atom, spec`bond, spec`angle, spec`dihed, spec`dimpr
      modifies this`attype, this`bdtype, this`antype, this`dhtype, this`ditype
      ensures forall p :: 0 <= p < |spec| ==> spec[p].Lists() == NumberLists(old(spec[p].Lists()), old(TypeLists()))
      ensures TypeLists() == MarkTypes(old(TypeLists()), Joined(old(Species(spec)), |spec|))
    {
      ghost var ty0 := TypeLists();
      ghost var before := Species(spec);
      MarkNone(ty0);
      for k := 0 to |spec|
        invariant NumberedUpTo(k, before, ty0)
      {
        NumberNext(spec[k], k, before, ty0);
      }
    }

    /**
     * The state of the second loop after k species: those are numbered by the
     * type lists as they were before the loop, the rest are as they were, and
     * the type lists are marked by the first k species.
     */
    ghost predicate NumberedUpTo(k: nat, before: seq<Topo>, ty0: Types)
      reads this, spec
    {
      && k <= |spec| == |before|
      && (forall p :: 0 <= p < k ==> spec[p].Lists() == NumberLists(before[p], ty0))
      && (forall p :: k <= p < |spec| ==> spec[p].Lists() == before[p])
      && TypeLists() == MarkTypes(ty0, Joined(before, k))
    }

    /** One turn of the second loop: species k numbered by the lists as they were before the loop. */
    method NumberNext(sp: Mol, k: nat, ghost before: seq<Topo>, ghost ty0: Types)
      requires k < |spec| && sp == spec[k] && NumberedUpTo(k, before, ty0)
      requires forall p, q :: 0 <= p < q < |spec| ==> spec[p] != spec[q]
      modifies sp`atom, sp`bond, sp`angle, sp`dihed, sp`dimpr
      modifies this`attype, this`bdtype, this`antype, this`dhtype, this`ditype
      ensures NumberedUpTo(k + 1, before, ty0)
    {
      MarkNames(ty0, Joined(before, k));
      NumberByNames(before[k], TypeLists(), ty0);
      MarkConcat(ty0, Joined(before, k), before[k]);
      NumberMol(sp);
    }

    /** One species' share of the second loop. */
    method NumberMol(sp: Mol)
      modifies sp`atom, sp`bond, sp`angle, sp`dihed, sp`dimpr
      modifies this`attype, this`bdtype, this`antype, this`dhtype, this`ditype
      ensures sp.Lists() == NumberLists(old(sp.Lists()), old(TypeLists()))
      ensures TypeLists() == MarkTypes(old(TypeLists()), old(sp.Lists()))
    {
      Setters();
      var a, at := AssignTypeIndex(sp.atom, attype, AtomKey, AtomWithIndex);
      var b, bd := AssignTypeIndex(sp.bond, bdtype, TermKey, TermWithIndex);
      var c, an := AssignTypeIndex(sp.angle, antype, TermKey, TermWithIndex);
      var d, dh := AssignTypeIndex(sp.dihed, dhtype, TermKey, TermWithIndex);
      var e, di := AssignTypeIndex(sp.dimpr, ditype, TermKey, TermWithIndex);
      sp.atom, sp.bond, sp.angle, sp.dihed, sp.dimpr := a, b, c, d, e;
      attype, bdtype, antype, dhtype, ditype := at, bd, an, dh, di;
    }

    /** The pair loop of `system.__init__`: one vdw pair per two atom types i <= j; the first incompatible pair aborts. */
    method SetVdw(mix: string, sqrt: real -> real) returns (res: Outcome<Error>)
      requires Parameterised(attype)
      modifies this`vdw
      ensures var t := VdwTable(attype, mix, sqrt);
        && (res.Pass? <==> t.Success?)
        && (res.Pass? ==> vdw == old(vdw) + t.value)
        && (res.Fail? ==> res.error == t.error)
    {
      var t := PairTable(attype, mix, sqrt);
      if t.Failure? {
        return Fail(t.error);
      }
      vdw := vdw + t.value;
      return Pass;
    }
  }

  // ---------------------------------------------------------------- properties

  lemma Setters()
    ensures IndexSetter(AtomKey, AtomWithIndex) && IndexSetter(TermKey, TermWithIndex)
  {
  }

  /** Building over one species after the others is building over all of them at once. */
  lemma BuildConcat(ty: Types, t1: Topo, t2: Topo)
    ensures BuildTypes(BuildTypes(ty, t1), t2) == BuildTypes(ty, Cat(t1, t2))
  {
    AddTypesConcat(ty.at, t1.atom, t2.atom, AtomKey);
    AddTypesConcat(ty.bd, t1.bond, t2.bond, TermKey);
    AddTypesConcat(ty.an, t1.angle, t2.angle, TermKey);
    AddTypesConcat(ty.dh, t1.dihed, t2.dihed, TermKey);
    AddTypesConcat(ty.di, t1.dimpr, t2.dimpr, TermKey);
  }

  /** Numbering one species after the others marks the type lists as numbering all of them at once. */
  lemma MarkConcat(ty: Types, t1: Topo, t2: Topo)
    ensures MarkTypes(MarkTypes(ty, t1), t2) == MarkTypes(ty, Cat(t1, t2))
  {
    Setters();
    MarkedConcat(ty.at, t1.atom, t2.atom, AtomKey, AtomWithIndex);
    MarkedConcat(ty.bd, t1.bond, t2.bond, TermKey, TermWithIndex);
    MarkedConcat(ty.an, t1.angle, t2.angle, TermKey, TermWithIndex);
    MarkedConcat(ty.dh, t1.dihed, t2.dihed, TermKey, TermWithIndex);
    MarkedConcat(ty.di, t1.dimpr, t2.dimpr, TermKey, TermWithIndex);
  }

  /** Numbering no atoms and no terms marks nothing. */
  lemma MarkNone(ty: Types)
    ensures MarkTypes(ty, Topo([], [], [], [], [])) == ty
  {
    MarkedNone(ty.at, AtomKey, AtomWithIndex);
    MarkedNone(ty.bd, TermKey, TermWithIndex);
    MarkedNone(ty.an, TermKey, TermWithIndex);
    MarkedNone(ty.dh, TermKey, TermWithIndex);
    MarkedNone(ty.di, TermKey, TermWithIndex);
  }

  /** Marking keeps the type lists' names. */
  lemma MarkNames(ty: Types, t: Topo)
    ensures SameNames(MarkTypes(ty, t), ty)
  {
    Setters();
    MarkedNames(ty.at, t.atom, AtomKey, AtomWithIndex);
    MarkedNames(ty.bd, t.bond, TermKey, TermWithIndex);
    MarkedNames(ty.an, t.angle, TermKey, TermWithIndex);
    MarkedNames(ty.dh, t.dihed, TermKey, TermWithIndex);
    MarkedNames(ty.di, t.dimpr, TermKey, TermWithIndex);
  }

  /** Type lists with the same names number every list the same way. */
  lemma NumberByNames(t: Topo, ty1: Types, ty2: Types)
    requires SameNames(ty1, ty2)
    ensures NumberLists(t, ty1) == NumberLists(t, ty2)
  {
    NumberedByNames(t.atom, ty1.at, ty2.at, AtomKey, AtomWithIndex);
    NumberedByNames(t.bond, ty1.bd, ty2.bd, TermKey, TermWithIndex);
    NumberedByNames(t.angle, ty1.an, ty2.an, TermKey, TermWithIndex);
    NumberedByNames(t.dihed, ty1.dh, ty2.dh, TermKey, TermWithIndex);
    NumberedByNames(t.dimpr, ty1.di, ty2.di, TermKey, TermWithIndex);
  }

  /**
   * After both loops on fresh type lists, every atom of every species has as
   * `ityp` the position of the one atom type of its name, and that type
   * carries the same index.
   */
  lemma AtomTypeIndex(all: Topo, k: nat)
    requires k < |all.atom|
    ensures var at := AddTypes([], all.atom, AtomKey);
      var i := NumberedAll(all.atom, at, AtomKey, AtomWithIndex)[k].ityp;
      && 0 <= i < |at| && at[i].name == all.atom[k].name
      && Marked(at, all.atom, AtomKey, AtomWithIndex)[i].ityp == i
      && NumberedAll(all.atom, at, AtomKey, AtomWithIndex)[k] == all.atom[k].(ityp := i)
  {
    Setters();
    BuiltAndNumbered(all.atom, AtomKey, AtomWithIndex, k);
  }

  /** The same for the bonds (and, with the same proof, every other term kind). */
  lemma TermTypeIndex(terms: seq<Term>, k: nat)
    requires k < |terms|
    ensures var ty := AddTypes([], terms, TermKey);
      var i := NumberedAll(terms, ty, TermKey, TermWithIndex)[k].ityp;
      && 0 <= i < |ty| && ty[i].name == terms[k].name
      && Marked(ty, terms, TermKey, TermWithIndex)[i].ityp == i
      && NumberedAll(terms, ty, TermKey, TermWithIndex)[k] == terms[k].(ityp := i)
  {
    Setters();
    BuiltAndNumbered(terms, TermKey, TermWithIndex, k);
  }
}
