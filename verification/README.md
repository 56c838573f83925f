# fftool topology core in Dafny

This project models the part of `fftool.py` that turns a molecule's atoms and
bonds into a typed molecular topology. `fftool.py` prepares molecular
simulations from z-matrix files and a force-field parameter database. The
model covers these pieces:

- **Declared topology** (`mol.fromzmat`). There is one atom per z-matrix line, and the molecular mass is the sum of their atomic weights. Bonds run from each atom to its distance-reference atom, plus the extra `connect` bonds. Impropers come from the `improper` lines. The file's 1-based indices become 0-based.
- **Guessed topology** (`mol.connectivity`). Every atom is typed by name. Then every pair i < j gets one bond per bond record that names its type pair, in either order, and accepts the observed distance.
- **Angles and dihedrals** (`mol.anglesdiheds`). There is one angle per pair of neighbours of each atom, and one dihedral per chain of three distinct bonds l–k–j.
- **Term matching** (`mol.setff`).
  - Atoms and bonds are typed by the last record applied to them. A missing atom or bond type ends the run. A bond outside tolerance only raises a warning.
  - Angles are dropped when unmatched or when a record applied to them rejects the observed angle. Dihedrals and impropers are dropped when unmatched.
  - Missing names are collected once each.
- **System type tables** (`system.__init__`, `build_type_list`, `assign_type_index`). They hold one type per distinct name, in first-occurrence order. Each atom and term gets the index of its type, and so does the type entry.
- **The van der Waals pair table** (`vdw.__init__` and the pair loop of `system.__init__`). It has one pair per two atom types i ≤ j, in row-major order. Lennard-Jones parameters are mixed by the geometric or the arithmetic rule.
- **Helpers**: the atomic weight and symbol lookup, `seteqval`/`checkval` of bonds and angles, and `cell`.

Observed distances and angles are parameters: functions from atom indices to reals. So is the square root. A run that the source ends with `sys.exit` or an exception becomes a `Failure` value.

Modules, one per file:

| Module | Contents |
|---|---|
| `Names` | '-'-joined type names |
| `Elements` | element table |
| `ForceField` | atoms, terms, records, equilibrium values, last-match lookup |
| `Zmatrix` | declared bonds and impropers |
| `Topology` | angle and dihedral enumeration |
| `Connectivity` | guessed bonds |
| `Matching` | `setff` as functions |
| `Typing` | `setff`'s loops as methods |
| `Molecule` | `class Mol` |
| `TypeList` | `build_type_list` and `assign_type_index` |
| `Vdw` | the pair table |
| `Box` | `cell` |
| `System` | `class System` |

Behaviour of the code that the model keeps as written:

- Every matching record is applied in turn, and the last one applied wins (`fftool.py:827-834`, `847-858`, `879-890`). A bonded term is compared with the name it carries at that record's turn. `setpar` renames it in the applied record's label order (`fftool.py:208`, `259`, `314`). So a later record can match a name that only the rename produced (`ForceField.NameAfter`, `ForceField.Applies`). With labels free of '-', the rename never changes which records match (`ForceField.AppliesIffMatches`).
- Dihedral enumeration neither checks that the two outer atoms differ nor removes reversed duplicates. A 3-ring yields the dihedral (c, a, b, c) (`Topology.RingDihedral`), and repeated bonds give repeated dihedrals.
- The duplicate-dihedral warning at `fftool.py:913` formats `di`, which is not bound yet, so the run ends there. The model makes this a `DuplicateDihedral` failure.
- `build_type_list` compares names exactly. Reversed terms share a type only because `setpar` renames a matched term in its record's own label order (`Matching.ReversedTermsShareName`). That holds only for labels without '-' (`Names.DashedLabelsBreakSymmetry`).

## Model

| member | source | states |
|---|---|---|
| Elements.AtomicWeight | fftool.py:36-43 | the weight of a name is the table weight of its element symbol (AtomicSymbol), and 0.0 when it has none; it is never negative |
| Elements.AtomicSymbol | fftool.py:45-52 | the two-letter prefix if it is an element, else the first letter if that is, else ''; a non-empty result is a one- or two-letter element prefix of the name |
| Elements.TwoLetterPrecedence | fftool.py:36-52 | 'Cl1' is chlorine, not carbon; 'C1' is carbon; 'Xx' has symbol '' and weight 0.0 |
| ForceField.NewAtom | fftool.py:124-130 | a new atom is untyped with index -1; a zero mass is replaced by the atomic weight of the name |
| ForceField.EqVal | fftool.py:214-224 | the equilibrium value is par[0] for 'harm' or 'cons'; any other potential aborts with that potential (angles: fftool.py:266-276 are identical) |
| ForceField.BondCheckVal | fftool.py:226-234 | a bond length passes exactly when it lies strictly within 0.25 of the equilibrium value |
| ForceField.AngleCheckVal | fftool.py:278-286 | an angle passes exactly when it lies strictly within 15 degrees of the equilibrium value |
| ForceField.SetEqVals | fftool.py:1091-1094 | loading passes exactly when every bond and angle record has an equilibrium value; otherwise it fails with the error of the first failing bond record, or, when all bond records succeed, of the first failing angle record |
| ForceField.LastAtomRec | fftool.py:827-834 | the result is the last atom record of the name; none exists exactly when no record has the name |
| ForceField.LastRec | fftool.py:847-858 | the result is the last record applied, i.e. whose labels match the name the term carries at its turn, forwards or reversed; none exists exactly when no record is applied |
| ForceField.NameAfterLast | fftool.py:847-858 | after the scan the term is named by the labels of the last record applied, or keeps its first name when none is |
| ForceField.NoneApplied | fftool.py:843-862 | no record is applied exactly when no record matches the first name; then the name is unchanged |
| ForceField.AppliesIffMatches | fftool.py:847-858 | with dash-free labels of the term's arity, the current name is always the first name or its reverse, and a record is applied exactly when it matches the first name |
| ForceField.RenameStep | fftool.py:207-212 | a name equal to the first name or its reverse matches a dash-free record exactly when the first name does, and renaming by that record yields the first name or its reverse again |
| ForceField.RenameEnablesLaterMatch | fftool.py:847-858 | a term first named C-A-B is renamed A-B-C by a record labelled A-B, C, after which a record labelled A, B-C is applied although it does not match the first name |
| ForceField.MatchCount | fftool.py:910-913 | the number of records applied is zero exactly when none is applied |
| ForceField.TwoMatches | fftool.py:910-913 | two applied records make the count at least two |
| ForceField.CountTwoMeansTwo | fftool.py:910-913 | a count of at least two means two distinct applied positions |
| Names.MatchReversed | fftool.py:880-882 | with dash-free labels, a term's name matches a record exactly when the reversed term's name does |
| Names.JoinInjective | fftool.py:873-874 | with dash-free labels, equal '-'-joined names come from equal label lists |
| Names.NameMatches | fftool.py:848-850 | a term name matches a record when it equals the record's labels joined by '-' forwards or reversed; no contract of its own, its symmetry is stated by Names.MatchReversed |
| Names.DashedLabelsBreakSymmetry | fftool.py:880-882 | a label containing '-' makes matching direction-dependent: types ("A-B","C") match record ("A","B-C") but ("C","A-B") do not |
| Zmatrix.RefBonds | fftool.py:529-530 | one bond per atom after the first, from that atom to its 0-based distance reference, in line order |
| Zmatrix.ConnectBonds | fftool.py:531-532 | each connect line becomes the bond of its two atoms shifted to 0-based |
| Zmatrix.Impropers | fftool.py:538-539 | one four-atom improper per improper line |
| Zmatrix.ImpropersRoundTrip | fftool.py:538-539 | shifting a declared improper back by one gives the file's line exactly |
| Zmatrix.Mass | fftool.py:523-525 | the mass summed over the first n atom lines is never negative and at least the weight of the last of them; MassAppend states the sum |
| Zmatrix.DeclaredBonds | fftool.py:528-532 | one two-atom bond per atom line after the first plus one per connect line; RefBonds and ConnectBonds state each one |
| Zmatrix.RefBondsStart | fftool.py:529-530 | every reference-column bond starts at an atom 1 ≤ i < n and ends at that atom's reference minus one |
| Zmatrix.MassAppend | fftool.py:523-525 | adding an atom line adds that atom's weight to the molecular mass |
| Zmatrix.SuccessiveIsChain | fftool.py:529-530 | a z-matrix in which each atom references the previous one declares exactly the chain (m+1, m) |
| Zmatrix.SuccessiveTopology | fftool.py:757-811 | the chain of n successive atoms has the n-2 angles (m, m+1, m+2) and exactly n-3 dihedrals (m+3, m+2, m+1, m) |
| Topology.NeighborsIff | fftool.py:764-773 | x is among atom i's neighbours exactly when some bond joins i and x in either direction |
| Topology.Neighbors | fftool.py:764-773 | atom i's neighbour list holds at most one entry per bond; NeighborsIff states its members |
| Topology.AnglesAtCount | fftool.py:774-776 | an atom with nb neighbours gets exactly nb(nb-1)/2 angles |
| Topology.AnglesUpToShape | fftool.py:774-776 | every angle at atom i is (neib[k], i, neib[l]) with k < l |
| Topology.AnglesUpToHas | fftool.py:774-776 | every neighbour pair k < l yields the angle (neib[k], i, neib[l]) |
| Topology.AngleForNeighborPair | fftool.py:764-776 | for each atom i < natom, every pair k < l of its neighbours appears as an angle |
| Topology.Angles | fftool.py:764-776 | every angle has three atoms and is centred on one of the first n atoms; AngleEndsBonded and AngleForNeighborPair state which |
| Topology.AngleEndsBonded | fftool.py:764-776 | every angle has three atoms, its centre is an atom of the molecule, and the centre is bonded to both ends |
| Topology.DihedsJIff | fftool.py:784-810 | for bonds k and l, the inner loop emits x exactly when some third bond j closes the chain l-k-j into x |
| Topology.DihedsLIff | fftool.py:780-810 | for bond k, the middle loop emits x exactly when some bonds l and j form the chain l-k-j that gives x |
| Topology.DihedsKIff | fftool.py:779-810 | the first kn bonds emit x exactly when one of them is the middle bond of a chain giving x |
| Topology.DihedsIff | fftool.py:779-810 | x is a dihedral exactly when three distinct bonds k, l, j give it: (x[1], x[2]) is bond k, x[0] is the other end of bond l at bond k's first atom, and x[3] is the other end of bond j at its second atom, each bond's first atom tried before its second |
| Topology.Diheds | fftool.py:779-810 | every dihedral has four atoms and its middle two are the two ends of a bond, in that bond's order; DihedsIff states which |
| Topology.RingDihedral | fftool.py:779-810 | a three-ring yields the dihedral (2, 0, 1, 2), whose outer atoms coincide |
| Topology.ChainAngles | fftool.py:764-776 | the chain of n atoms yields exactly the n-2 angles (m, m+1, m+2) |
| Topology.ChainDiheds | fftool.py:779-810 | the chain of n atoms yields exactly the n-3 dihedrals (m+3, m+2, m+1, m) |
| Connectivity.AtomTypes | fftool.py:732-743 | a successful typing pass keeps the atom count and types every atom |
| Connectivity.AtomTypesMeaning | fftool.py:732-743 | typing succeeds exactly when every atom's name has a record, and then changes only each atom's type |
| Connectivity.PassCountPositive | fftool.py:750-755 | a pair gets a bond exactly when some record names its type pair and accepts its distance |
| Connectivity.InferredCount | fftool.py:745-755 | the bond (i, j) occurs once per accepting record when 0 ≤ i < j < n, and never otherwise |
| Connectivity.InferredPairs | fftool.py:745-755 | every inferred bond joins two atoms i < j of the molecule |
| Connectivity.Inferred | fftool.py:745-755 | the bonds guessed for all pairs i < j; no contract of its own, InferredPairs, InferredIff and InferredCount state its contents |
| Connectivity.InferredIff | fftool.py:745-755 | (i, j) is inferred exactly when 0 ≤ i < j < n and some record matching the type pair accepts the distance |
| Connectivity.PassCountSymmetric | fftool.py:749-753 | with dash-free labels, the types of a pair count the same accepting records in either order |
| Matching.PyIndex | fftool.py:844 | Python indexing: -n ≤ i < n is valid and denotes the position congruent to i |
| Matching.Untyped | fftool.py:835-838 | the missing list names exactly the atoms without a record |
| Matching.AtomPhase | fftool.py:825-840 | a successful atom pass keeps the atom count and types every atom |
| Matching.DefaultAtom | fftool.py:816-819 | without a force field an atom becomes its own type with charge 0, 'lj' and parameters [0, 0], and keeps name, mass and index |
| Matching.Defaults | fftool.py:816-819 | every atom is given those defaults |
| Matching.AtomPhaseOk | fftool.py:825-840 | the atom pass succeeds exactly when every atom's name has a record |
| Matching.AtomPhaseLastWins | fftool.py:827-834 | when record q is the last of the atom's name, the atom ends with q's type, charge, potential, parameters and mass |
| Matching.AtomPhaseMissing | fftool.py:835-840 | a failing atom pass reports exactly the names that have no record |
| Matching.FailingMatchesIff | fftool.py:849-857 | the warned records are exactly those applied to the bond (matching its name at their turn) that reject its length |
| Matching.JudgeBond | fftool.py:843-845 | a bond is fatal exactly when an atom index is out of range |
| Matching.BondPhase | fftool.py:843-864 | a successful bond pass reports no missing type, and a failing one fails only on an atom index out of range or on missing bond types; BondPhaseSpec states the rest |
| Matching.BondPhaseSpec | fftool.py:843-864 | the bond pass succeeds exactly when every bond's atoms exist and some record matches it; each bond then carries the name and parameters of the last record applied, and the warnings are exactly the (bond, applied record) pairs whose check fails, the bond being kept |
| Matching.AngleVerdict | fftool.py:872-898 | an angle is fatal exactly when an atom index is out of range; never a duplicate |
| Matching.AngleVerdictMeaning | fftool.py:877-898 | an angle is dropped as unmatched exactly when no record matches its first name, and reported under that name; it is rejected exactly when some record applied to it fails the 15-degree check |
| Matching.TorsionVerdict | fftool.py:900-942 | a dihedral or improper is fatal on a bad index, never rejected for geometry, and a duplicate only for dihedrals |
| Matching.TorsionVerdictMeaning | fftool.py:900-942 | a dihedral or improper is dropped exactly when no record matches its first name, and reported under that name |
| Matching.DihedralDuplicateIff | fftool.py:907-913 | a dihedral ends the run exactly when two different records are applied to it, the second matching the name the first gave it |
| Matching.PruneOk | fftool.py:872-942 | a pruning loop succeeds exactly when no term is fatal |
| Matching.PruneFirstFatal | fftool.py:872-942 | a failing loop fails with the error of its first fatal term |
| Matching.PruneKept | fftool.py:872-942 | the kept terms are exactly the accepted ones, in their original relative order |
| Matching.PruneMiss | fftool.py:895-898 | the missing names are exactly those of unmatched terms, each listed once |
| Matching.PruneAllAccepted | fftool.py:872-942 | a list whose every term is accepted passes through unchanged with nothing missing |
| Matching.AnglePhase | fftool.py:872-898 | a successful angle pass keeps and reports at most one term and one name per angle; PruneKept and PruneMiss state which |
| Matching.TorsionPhase | fftool.py:900-942 | a successful dihedral or improper pass keeps and reports at most one term and one name per input term; PruneKept and PruneMiss state which |
| Matching.Assign | fftool.py:821-951 | a successful setff keeps every atom and types it, keeps every bond, and never adds an angle, dihedral or improper; the phase lemmas state the contents |
| Matching.AngleVerdictIdempotent | fftool.py:886-887 | an angle that was typed and kept is kept again as itself |
| Matching.TorsionVerdictIdempotent | fftool.py:914-915 | a dihedral or improper that was typed and kept is kept again as itself |
| Matching.AtomPhaseIdempotent | fftool.py:825-840 | typing the typed atoms again changes nothing |
| Matching.BondPhaseIdempotent | fftool.py:843-864 | naming the named bonds again changes nothing |
| Matching.AnglePhaseIdempotent | fftool.py:872-898 | pruning the kept angles again keeps them all and reports nothing missing |
| Matching.TorsionPhaseIdempotent | fftool.py:900-942 | pruning the kept dihedrals or impropers again keeps them all and reports nothing missing |
| Matching.AssignIdempotent | fftool.py:813-951 | running setff on a molecule it has typed changes no atom or term and reports no missing name |
| Matching.ReversedTermsShareName | fftool.py:207-212 | with dash-free labels, a term and its reverse match the same last record and end with the same name and parameters |
| Typing.MatchAtom | fftool.py:826-838 | one atom is typed by its last record, and found exactly when some record has its name |
| Typing.TypeAtoms | fftool.py:825-840 | the atom loop types every atom and collects the missing names; the pass result follows from them |
| Typing.MatchBond | fftool.py:844-862 | one bond is named, typed and checked as the bond pass prescribes, each record compared with the name the previous one gave |
| Typing.TypeBonds | fftool.py:843-864 | the bond loop computes the bond pass |
| Typing.NameBonds | fftool.py:843-864 | the bond loop accumulates the bonds, warnings and misses of each bond in turn |
| Typing.MatchAngle | fftool.py:873-894 | one angle is judged as the angle pass prescribes, each record compared with its current name |
| Typing.MatchTorsion | fftool.py:901-920 | one dihedral or improper is judged as the pass prescribes, each record compared with its current name |
| Typing.PruneAngles | fftool.py:872-898 | the angle loop over a copy of the list computes the angle pass |
| Typing.PruneTorsions | fftool.py:900-942 | the dihedral or improper loop over a copy of the list computes its pass |
| TypeList.FirstIndex | fftool.py:1223-1227 | the result is the first entry of the name; none exists exactly when no entry has it |
| TypeList.BuildTypeList | fftool.py:1210-1218 | the loop appends each item whose name the list lacks, in item order |
| TypeList.FindType | fftool.py:1223-1227 | the search stops at the first entry of the name |
| TypeList.AssignTypeIndex | fftool.py:1220-1227 | every term gets the index of its name's first entry, and that entry gets its own index |
| TypeList.AddTypes | fftool.py:1210-1218 | the list gains at most one entry per item; AddTypesPrefix, AddTypesNames, AddTypesFirst and AddTypesOrder state which, and in what order |
| TypeList.NumberedAll | fftool.py:1220-1227 | every term is numbered by the type list, one result per term in order; NumberedByName states the index |
| TypeList.Marked | fftool.py:1220-1227 | the type list keeps its length, and each entry either stays as it was or carries its own position as index; MarkedAll and MarkedNames state which |
| TypeList.AddTypesPrefix | fftool.py:1217-1218 | the list only grows at its end, by at most one entry per item |
| TypeList.AddTypesNames | fftool.py:1212-1218 | a name has a type afterwards exactly when it had one before or some item has it |
| TypeList.AddTypesDistinct | fftool.py:1212-1218 | starting from distinct names, the names stay distinct |
| TypeList.AddTypesFirst | fftool.py:1212-1218 | each added type is the first item of its name, which had no type before |
| TypeList.AddTypesOrder | fftool.py:1212-1218 | the added types appear in the order their names first occur among the items |
| TypeList.AddTypesConcat | fftool.py:1184-1189 | building over one species after another equals building over all of them at once |
| TypeList.AddTypesIdempotent | fftool.py:1210-1218 | building again from the same items changes nothing |
| TypeList.NumberedByName | fftool.py:1223-1227 | a term whose name is at entry i gets index i |
| TypeList.MarkedAll | fftool.py:1225-1226 | when the entries' names are distinct and each occurs among the terms, every entry ends with its own index |
| TypeList.MarkedNames | fftool.py:1225-1226 | numbering changes no entry's name, only its index |
| TypeList.MarkedConcat | fftool.py:1198-1203 | numbering species after species marks the lists as numbering all at once |
| TypeList.BuiltAndNumbered | fftool.py:1184-1203 | after both loops each term's index is the position of the only entry of its name, and that entry carries the same index |
| Molecule.ZAtoms | fftool.py:523-524 | one new atom per z-matrix line, with the element weight of its name |
| Molecule.NewAtoms | fftool.py:523-525 | the atom loop makes those atoms and sums their weights into the mass |
| Molecule.TypeOf | fftool.py:733-741 | one atom takes the type of its last record, and found says whether one exists |
| Molecule.TypeAll | fftool.py:732-741 | every atom is typed by name, and the missing names are collected |
| Molecule.AssignLists | fftool.py:825-951 | the loops of setff compute the whole term assignment |
| Molecule.NeighborList | fftool.py:765-773 | the scan of the bond list collects atom i's neighbours in bond order |
| Molecule.NewBonds | fftool.py:527-536 | the added bonds are all pairs, and the atom count stays the same |
| Molecule.ZmatTopology | fftool.py:527-539 | after the topology step every bond is a pair |
| Molecule.ZmatTopologyDeclared | fftool.py:528-533 | without reconnect, the step cannot fail, leaves the atoms alone, adds exactly the declared bonds and sets topol 'file' |
| Molecule.ZmatTopologyGuessedOk | fftool.py:534-536 | with reconnect, the step fails exactly when some atom's name has no record |
| Molecule.NewBondsGuessed | fftool.py:534-536 | guessing only retypes the atoms, and every added bond joins atoms i < j of the molecule |
| Molecule.ZmatTopologyGuessed | fftool.py:534-536 | with reconnect the atoms are only retyped, topol is 'guess', and every added bond joins atoms i < j |
| Molecule.ZmatTopologyKeeps | fftool.py:527-539 | earlier bonds, angles and dihedrals stay in front, and the impropers are extended by the declared ones |
| Molecule.ZmatTopologyAngles | fftool.py:537 | every added angle is centred on an atom of the molecule and bonded to both ends |
| Molecule.ZmatTopologyDiheds | fftool.py:537 | every added dihedral is built from three distinct bonds chained l-k-j |
| Molecule.DeclaredBondTerms | fftool.py:528-532 | the two declaring loops append the reference bonds, then the connect bonds, each a pair |
| Molecule.ImproperTerms | fftool.py:538-539 | the improper loop appends one improper per line |
| Molecule.InferredBonds | fftool.py:745-755 | the all-pairs scan appends exactly the inferred bonds |
| Molecule.RowBonds | fftool.py:747-755 | the scan for atom i appends its bonds to every later atom |
| Molecule.PairBonds | fftool.py:750-755 | the record loop for pair (i, j) appends one bond per accepting record |
| Molecule.AngleTerms | fftool.py:764-776 | the angle loop appends the angles of every atom in atom order |
| Molecule.AnglesAround | fftool.py:774-776 | the double loop appends one angle per neighbour pair k < l |
| Molecule.DihedTerms | fftool.py:779-810 | the dihedral loop appends the dihedrals of every bond in bond order |
| Molecule.DihedsOver | fftool.py:780-810 | the loop over l appends the dihedrals with middle bond k |
| Molecule.ClosingDiheds | fftool.py:784-810 | the loop over j appends one dihedral per third bond closing the chain |
| Molecule.Mol.constructor | fftool.py:482-490 | a new molecule has empty lists, mass 0 and no topology |
| Molecule.Mol.FromZmat | fftool.py:518-540 | name, force field and reconnect come from the file; the atoms and mass are added; the topology is built exactly when connect is asked for and a force field is named |
| Molecule.Mol.BuildTopology | fftool.py:527-539 | bonds, angles, dihedrals and impropers are extended as the topology step prescribes, or the step's error is returned |
| Molecule.Mol.AddBonds | fftool.py:528-536 | the bond list is extended by the declared or guessed bonds, and topol records which |
| Molecule.Mol.AddZAtoms | fftool.py:523-525 | one atom is appended per z-matrix line, and the mass grows by their weights |
| Molecule.Mol.Connectivity | fftool.py:727-755 | the atoms are typed and the inferred bonds appended; a missing atom type fails with the missing names and adds no bond |
| Molecule.Mol.TypeByName | fftool.py:732-743 | the typing loop leaves the typed atoms and returns the missing names |
| Molecule.Mol.AnglesDiheds | fftool.py:757-811 | the angle and dihedral lists are extended by exactly the enumerated angles and dihedrals of the current bonds |
| Molecule.Mol.SetFF | fftool.py:813-951 | without a force field, only the atoms change, to their defaults; with one, the lists become what the term assignment produces, or the run fails |
| Molecule.Mol.ApplyField | fftool.py:821-951 | the lists become what the term assignment produces |
| Molecule.Mol.DefaultTypes | fftool.py:816-819 | every atom gets its default parameters |
| Vdw.MixErrors | fftool.py:1118-1128 | a pair fails with IncompatiblePotentials exactly when the potentials differ, and with ParameterLengthMismatch exactly when only the parameter lengths differ |
| Vdw.MixSelf | fftool.py:1130-1132 | a type paired with itself succeeds and copies its own Lennard-Jones parameters |
| Vdw.MixSymmetric | fftool.py:1130-1139 | swapping two different types keeps the outcome, the potential and the parameters, and swaps the names |
| Vdw.MixRules | fftool.py:1133-1139 | unlike LJ types: par[1] is the geometric mean; par[0] is the geometric mean under 'g', otherwise the arithmetic mean, lying between the two inputs |
| Vdw.Mix | fftool.py:1112-1139 | a pair mixes only when both types have the same potential and parameter count, and it keeps both names, both type indices and the common potential |
| Vdw.PairTable | fftool.py:1206-1208 | the pair loop builds the vdw table of the atom types |
| Vdw.Table | fftool.py:1206-1208 | the outer loop concatenates the rows and stops at the first failure |
| Vdw.TableRow | fftool.py:1207-1208 | the inner loop appends pairs (i, j), j ≥ i, and stops at the first failure |
| Vdw.RowOk | fftool.py:1207-1208 | a row succeeds exactly when each of its pairs does, and holds them in order |
| Vdw.RowFirstError | fftool.py:1207-1208 | a failing row fails with the error of one of its pairs |
| Vdw.UpToOk | fftool.py:1206-1208 | the first rows succeed exactly when all their pairs do |
| Vdw.OffsetClosed | fftool.py:1206-1207 | row i starts after i(2n-i+1)/2 pairs |
| Vdw.TableOk | fftool.py:1206-1208 | the table succeeds exactly when every pair i ≤ j does; it then has n(n+1)/2 entries, with pair (i, j) at its row-major slot |
| Vdw.VdwTableOk | fftool.py:1206-1208 | the table of n atom types succeeds exactly when every pair i ≤ j mixes; it has n(n+1)/2 entries, with the mix of types i and j at slot (i, j) |
| Vdw.VdwTable | fftool.py:1206-1208 | a successful table holds n(n+1)/2 pairs for n atom types |
| Vdw.VdwTableError | fftool.py:1206-1208 | a failing table fails with the error of its first failing pair (i, j), i ≤ j, in row-major order: every earlier pair mixes |
| Box.NewCell | fftool.py:1151-1160 | a periodic cell has tolerance 0; a non-periodic cell keeps the given tolerance; the other fields are stored as given |
| Box.Volume | fftool.py:1162-1163 | the volume a·b·c of a box whose three edges are positive is positive |
| System.System.constructor | fftool.py:1172-1181 | a new system holds its species, with empty type lists and an empty pair table |
| System.System.BuildTypeLists | fftool.py:1183-1189 | the first loop builds the five type lists over all species, molecule after molecule |
| System.System.AddLists | fftool.py:1185-1189 | one species' atoms and terms are added to the five type lists |
| System.System.AssignTypeIndexes | fftool.py:1197-1203 | every species' atoms and terms are numbered by the type lists as they stood before the loop; the lists' entries are marked with their own indices; nothing else changes |
| System.System.NumberMol | fftool.py:1199-1203 | one species is numbered, and the type entries it uses are marked |
| System.System.SetVdw | fftool.py:1205-1208 | the pair table is appended when every pair of atom types mixes, and otherwise the first error is returned |
| System.BuildConcat | fftool.py:1184-1189 | building the tables species by species equals building them over the concatenation |
| System.MarkConcat | fftool.py:1198-1203 | numbering species by species marks the tables as numbering the concatenation |
| System.MarkNames | fftool.py:1226 | numbering leaves the type names unchanged |
| System.AtomTypeIndex | fftool.py:1220-1227 | after both loops each atom's index is in range, points to the type of its name, and that type carries the same index; only the index changes |
| System.TermTypeIndex | fftool.py:1220-1227 | the same holds for bonded terms |

## Left out

- The Cartesian reconstruction is not modelled: `zmat2cart`, the `vector` class, and `dist2atoms`/`angle3atoms` with their minimum-image correction. Observed distances and angles are parameters of the model, and `math.sqrt` is a parameter too.
- Reals are exact: no floating-point rounding is modelled.
- File reading is not modelled: the z-matrix, MDL mol and xyz readers (`frommdlmol`, `fromxyz`), the force-field file reader apart from its final `seteqval` loop, and `readcoords`.
  - A parsed z-matrix and a loaded force field are values given to the model.
  - The extension dispatch in `mol.__init__` is not modelled. Neither is its final `setff` call: `FromZmat` and `SetFF` are separate methods.
- Output is not modelled: the writers, `show`, `__str__`, `charge`, `main` and argument handling. These are text formatting and I/O.
- Printed warnings are not modelled as text.
  - Bond-check warnings become (bond, record) pairs.
  - Missing angle, dihedral and improper names become lists.
  - Duplicate-match warnings for atoms, bonds, angles and impropers are dropped, since they do not change the result.
- Errors become `Failure` values. This covers `sys.exit`, the IndexError of a term index outside the atom list, and the unbound-variable error of the duplicate-dihedral warning.
  - After a failure, the model leaves a molecule's lists unspecified, since the source's run has ended.
- Coordinates, `nmol`, `filename` and the `box` argument are not modelled. The box only affects the geometry.
- Aliasing is modelled by value. The source's type-list entries are the same objects as the first atom or term of each name. The model keeps them as values and writes the index into the term and into the type entry, so both hold the same index, as the aliased object does.
- System.System.AssignTypeIndexes: requires the species to be distinct `Mol` objects. If one object were listed twice, the source would number it twice. The model's frame reasoning needs distinct objects.
- Molecule.Mol.FromZmat: requires non-empty atom names, as the atomic weight lookup does. It also requires every bond record to carry its equilibrium value, which loading the force field (`ForceField.SetEqVals`) guarantees.
- Molecule.Mol.SetFF: requires every bond to have two atom indices, every angle three, and every dihedral and improper four (`Shaped`). In the source these are the fields of the bond, angle and dihedral classes.
- System.System.SetVdw: requires every atom type to carry non-bonded parameters. `setff` always sets them.
- `system.__init__` is split into a constructor, `BuildTypeLists`, `AssignTypeIndexes` and `SetVdw`. A constructor cannot report the fatal mixing error.
