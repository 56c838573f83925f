/**
 * Van der Waals pairs (`class vdw`) and the table of them a system builds:
 * one pair per two atom types i <= j, in row-major order, with the
 * Lennard-Jones parameters of unlike types combined by the geometric or the
 * arithmetic rule. The square root is a parameter of the model.
 */
module Vdw {
  import opened Wrappers
  import opened ForceField

  /** A pair: the two type names and indices, the potential kind and, for Lennard-Jones, its parameters. */
  datatype VdwPair = VdwPair(i: string, j: string, ityp: int, jtyp: int, pot: string, par: Option<seq<real>>)

  /** sqrt returns the non-negative square root of every non-negative number. */
  ghost predicate IsSqrt(sqrt: real -> real)
  {
    forall x: real {:trigger sqrt(x)} :: x >= 0.0 ==> sqrt(x) >= 0.0 && sqrt(x) * sqrt(x) == x
  }

  /** The atoms carry non-bonded parameters (`setpar` has run on them). */
  predicate Parameterised(ats: seq<Atom>)
  {
    forall k :: 0 <= k < |ats| ==> ats[k].nb.Some?
  }

  /** Python's `math.sqrt`: a negative argument raises an error. */
  function Root(x: real, sqrt: real -> real): Result<real, Error>
  {
    if x < 0.0 then Failure(MathDomain) else Success(sqrt(x))
  }

  /**
   * `vdw(iat, jat, mix)`: both atoms must have the same potential kind and
   * parameter-list length. Lennard-Jones pairs of one type keep that type's
   * parameters; unlike types get epsilon-like par[0] by the geometric rule
   * (mix "g") or the arithmetic mean, and par[1] by the geometric rule.
   * Other kinds carry no parameters.
   */
  function Mix(iat: Atom, jat: Atom, mix: string, sqrt: real -> real): (r: Result<VdwPair, Error>)
    requires iat.nb.Some? && jat.nb.Some?
    ensures r.Success? ==> iat.nb.value.pot == jat.nb.value.pot && |iat.nb.value.par| == |jat.nb.value.par|
    ensures r.Success? ==>
      && r.value.i == iat.name && r.value.j == jat.name && r.value.ityp == iat.ityp
      && r.value.jtyp == jat.ityp && r.value.pot == iat.nb.value.pot
  {
    var p, q := iat.nb.value, jat.nb.value;
    var v := VdwPair(iat.name, jat.name, iat.ityp, jat.ityp, p.pot, None);
    if p.pot != q.pot then Failure(IncompatiblePotentials(iat.name, jat.name))
    else if |p.par| != |q.par| then Failure(ParameterLengthMismatch(iat.name, jat.name))
    else if p.pot != "lj" then Success(v)
    else if iat.name == jat.name then Success(v.(par := Some(p.par)))
    else if |p.par| == 0 then Failure(MissingParameter)
    else
      var e0 := if mix == "g" then Root(p.par[0] * q.par[0], sqrt) else Success((p.par[0] + q.par[0]) / 2.0);
      if e0.Failure? then Failure(e0.error)
      else if |p.par| < 2 then Failure(MissingParameter)
      else
        var e1 := Root(p.par[1] * q.par[1], sqrt);
        if e1.Failure? then Failure(e1.error)
        else Success(v.(par := Some([e0.value, e1.value])))
  }

  /** One table entry: the pair of types i and j. */
  type PairFn = (nat, nat) -> Result<VdwPair, Error>

  /** The pairs (i, j) for j = i .. jn-1; the first failing pair ends the row. */
  function Row(f: PairFn, i: nat, jn: nat): Result<seq<VdwPair>, Error>
    requires i <= jn
    decreases jn
  {
    if jn == i then Success([])
    else
      var row := Row(f, i, jn - 1);
      if row.Failure? then row
      else if f(i, jn - 1).Failure? then Failure(f(i, jn - 1).error)
      else Success(row.value + [f(i, jn - 1).value])
  }

  /** The rows 0 .. rows-1 of the table of n types, in the order of the source's loops. */
  function UpTo(f: PairFn, n: nat, rows: nat): Result<seq<VdwPair>, Error>
    requires rows <= n
  {
    if rows == 0 then Success([])
    else
      var pre := UpTo(f, n, rows - 1);
      if pre.Failure? then pre
      else
        var row := Row(f, rows - 1, n);
        if row.Failure? then row else Success(pre.value + row.value)
  }

  /** The vdw object of atom types i and j. */
  function PairOf(ats: seq<Atom>, mix: string, sqrt: real -> real): PairFn
  {
    (i: nat, j: nat) =>
      if i < |ats| && j < |ats| && ats[i].nb.Some? && ats[j].nb.Some? then Mix(ats[i], ats[j], mix, sqrt)
      else Failure(MissingParameter)
  }

  /** The whole table of a system's atom types: one pair for each two types i <= j. */
  function VdwTable(ats: seq<Atom>, mix: string, sqrt: real -> real): (r: Result<seq<VdwPair>, Error>)
    ensures r.Success? ==> 2 * |r.value| == |ats| * (|ats| + 1)
  {
    var t := UpTo(PairOf(ats, mix, sqrt), |ats|, |ats|);
    if t.Success? then
      UpToLen(PairOf(ats, mix, sqrt), |ats|, |ats|);
      OffsetClosed(|ats|, |ats|);
      t
    else t
  }

  /** Where row i starts in the table of n types: rows 0 .. i-1 hold n, n-1, ... pairs. */
  function Offset(n: nat, i: nat): nat
    requires i <= n
  {
    if i == 0 then 0 else Offset(n, i - 1) + (n - (i - 1))
  }

  /** The position of pair (i, j), i <= j, in the table of n types. */
  function Slot(n: nat, i: nat, j: nat): nat
    requires i <= j < n
  {
    Offset(n, i) + (j - i)
  }

  /** The pair loop of `system.__init__`. */
  method PairTable(ats: seq<Atom>, mix: string, sqrt: real -> real) returns (r: Result<seq<VdwPair>, Error>)
    requires Parameterised(ats)
    ensures r == VdwTable(ats, mix, sqrt)
  {
    r := Table(PairOf(ats, mix, sqrt), |ats|);
  }

  /** Rows i = 0 .. n-1 of pairs (i, j), j >= i; the first failing pair ends the loop. */
  method Table(f: PairFn, n: nat) returns (r: Result<seq<VdwPair>, Error>)
    ensures r == UpTo(f, n, n)
  {
    var table: seq<VdwPair> := [];
    for i := 0 to n
      invariant UpTo(f, n, i) == Success(table)
    {
      var row := TableRow(f, i, n);
      if row.Failure? {
        UpToStaysFailed(f, n, i + 1, n);
        return row;
      }
      table := table + row.value;
    }
    return Success(table);
  }

  /** Row i: the pairs (i, j) for j = i .. n-1. */
  method TableRow(f: PairFn, i: nat, n: nat) returns (r: Result<seq<VdwPair>, Error>)
    requires i <= n
    ensures r == Row(f, i, n)
  {
    var row: seq<VdwPair> := [];
    for j := i to n
      invariant Row(f, i, j) == Success(row)
    {
      var v := f(i, j);
      if v.Failure? {
        RowStaysFailed(f, i, j + 1, n);
        return Failure(v.error);
      }
      row := row + [v.value];
    }
    return Success(row);
  }

  // ---------------------------------------------------------------- properties

  lemma {:induction false} RowStaysFailed(f: PairFn, i: nat, j: nat, jn: nat)
    requires i <= j <= jn && Row(f, i, j).Failure?
    ensures Row(f, i, jn) == Row(f, i, j)
    decreases jn
  {
    if jn > j {
      RowStaysFailed(f, i, j, jn - 1);
    }
  }

  lemma {:induction false} UpToStaysFailed(f: PairFn, n: nat, rows: nat, rn: nat)
    requires rows <= rn <= n && UpTo(f, n, rows).Failure?
    ensures UpTo(f, n, rn) == UpTo(f, n, rows)
  {
    if rn > rows {
      UpToStaysFailed(f, n, rows, rn - 1);
    }
  }

  /** Mixing fails on different potential kinds or parameter-list lengths, naming the pair. */
  lemma MixErrors(iat: Atom, jat: Atom, mix: string, sqrt: real -> real)
    requires iat.nb.Some? && jat.nb.Some?
    ensures iat.nb.value.pot != jat.nb.value.pot <==> Mix(iat, jat, mix, sqrt) == Failure(IncompatiblePotentials(iat.name, jat.name))
    ensures iat.nb.value.pot == jat.nb.value.pot && |iat.nb.value.par| != |jat.nb.value.par| <==>
      Mix(iat, jat, mix, sqrt) == Failure(ParameterLengthMismatch(iat.name, jat.name))
  {
  }

  /** A type paired with itself keeps its own parameters. */
  lemma MixSelf(a: Atom, mix: string, sqrt: real -> real)
    requires a.nb.Some?
    ensures Mix(a, a, mix, sqrt).Success?
    ensures Mix(a, a, mix, sqrt).value.par == if a.nb.value.pot == "lj" then Some(a.nb.value.par) else None
  {
  }

  /** The combining rules are symmetric: swapping the types swaps the names and keeps the outcome and parameters. */
  lemma MixSymmetric(iat: Atom, jat: Atom, mix: string, sqrt: real -> real)
    requires iat.nb.Some? && jat.nb.Some? && iat.name != jat.name
    ensures Mix(iat, jat, mix, sqrt).Success? <==> Mix(jat, iat, mix, sqrt).Success?
    ensures Mix(iat, jat, mix, sqrt).Success? ==>
      && Mix(iat, jat, mix, sqrt).value.par == Mix(jat, iat, mix, sqrt).value.par
      && Mix(iat, jat, mix, sqrt).value.pot == Mix(jat, iat, mix, sqrt).value.pot
      && Mix(iat, jat, mix, sqrt).value.i == Mix(jat, iat, mix, sqrt).value.j
  {
    var p, q := iat.nb.value, jat.nb.value;
    if |p.par| >= 1 && |q.par| >= 1 {
      assert p.par[0] * q.par[0] == q.par[0] * p.par[0];
      assert p.par[0] + q.par[0] == q.par[0] + p.par[0];
    }
    if |p.par| >= 2 && |q.par| >= 2 {
      assert p.par[1] * q.par[1] == q.par[1] * p.par[1];
    }
  }

  /**
   * Unlike Lennard-Jones types: par[1] is the geometric mean of the two
   * par[1]; par[0] is their geometric mean under mix "g" and the arithmetic
   * mean otherwise, which lies between the two.
   */
  lemma MixRules(iat: Atom, jat: Atom, mix: string, sqrt: real -> real)
    requires IsSqrt(sqrt) && iat.nb.Some? && jat.nb.Some? && iat.name != jat.name
    requires Mix(iat, jat, mix, sqrt).Success? && iat.nb.value.pot == "lj"
    ensures var p, q, r := iat.nb.value.par, jat.nb.value.par, Mix(iat, jat, mix, sqrt).value.par;
      && |p| >= 2 && |q| >= 2 && r.Some? && |r.value| == 2
      && r.value[1] >= 0.0 && r.value[1] * r.value[1] == p[1] * q[1]
      && (mix == "g" ==> r.value[0] >= 0.0 && r.value[0] * r.value[0] == p[0] * q[0])
      && (mix != "g" ==> r.value[0] == (p[0] + q[0]) / 2.0
                         && (p[0] <= r.value[0] <= q[0] || q[0] <= r.value[0] <= p[0]))
  {
    var p, q := iat.nb.value.par, jat.nb.value.par;
    if mix == "g" {
      assert sqrt(p[0] * q[0]) >= 0.0;
    }
    assert sqrt(p[1] * q[1]) >= 0.0;
  }

  /** A row succeeds exactly when every pair in it does, and then holds those pairs in order. */
  lemma {:induction false} RowOk(f: PairFn, i: nat, jn: nat)
    requires i <= jn
    ensures Row(f, i, jn).Success? <==> forall j :: i <= j < jn ==> f(i, j).Success?
    ensures Row(f, i, jn).Success? ==>
      var row := Row(f, i, jn).value;
      |row| == jn - i && forall j :: i <= j < jn ==> row[j - i] == f(i, j).value
    decreases jn
  {
    if jn > i {
      RowOk(f, i, jn - 1);
    }
  }

  /** A pair of the row fails and gives the row's error, and every pair the loop tried before it succeeded. */
  lemma {:induction false} RowFirstError(f: PairFn, i: nat, jn: nat)
    requires i <= jn && Row(f, i, jn).Failure?
    ensures exists j :: && i <= j < jn && f(i, j) == Failure(Row(f, i, jn).error)
                        && forall j' :: i <= j' < j ==> f(i, j').Success?
    decreases jn
  {
    var row := Row(f, i, jn - 1);
    if row.Failure? {
      RowFirstError(f, i, jn - 1);
    } else {
      RowOk(f, i, jn - 1);
      assert f(i, jn - 1) == Failure(Row(f, i, jn).error);
    }
  }

  lemma {:induction false} OffsetClosed(n: nat, i: nat)
    requires i <= n
    ensures 2 * Offset(n, i) == i * (2 * n - i + 1)
  {
    if i > 0 {
      OffsetClosed(n, i - 1);
    }
  }

  lemma {:induction false} OffsetMono(n: nat, i: nat, k: nat)
    requires i <= k <= n
    ensures Offset(n, i) <= Offset(n, k)
    decreases k
  {
    if k > i {
      OffsetMono(n, i, k - 1);
    }
  }

  /** The rows before `rows` succeed exactly when each of their pairs i <= j does. */
  lemma {:induction false} UpToOk(f: PairFn, n: nat, rows: nat)
    requires rows <= n
    ensures UpTo(f, n, rows).Success? <==> forall i, j :: 0 <= i < rows && i <= j < n ==> f(i, j).Success?
  {
    if rows > 0 {
      UpToOk(f, n, rows - 1);
      RowOk(f, rows - 1, n);
    }
  }

  /** A successful table up to `rows` holds Offset(n, rows) pairs. */
  lemma {:induction false} UpToLen(f: PairFn, n: nat, rows: nat)
    requires rows <= n && UpTo(f, n, rows).Success?
    ensures |UpTo(f, n, rows).value| == Offset(n, rows)
  {
    if rows > 0 {
      UpToLen(f, n, rows - 1);
      RowOk(f, rows - 1, n);
    }
  }

  /** In a successful table up to `rows`, pair (i, j) of an earlier row succeeded and sits in its slot. */
  lemma {:induction false} UpToSlot(f: PairFn, n: nat, rows: nat, i: nat, j: nat)
    requires rows <= n && UpTo(f, n, rows).Success? && i < rows && i <= j < n
    ensures Slot(n, i, j) < |UpTo(f, n, rows).value|
    ensures f(i, j).Success? && UpTo(f, n, rows).value[Slot(n, i, j)] == f(i, j).value
  {
    var pre, row := UpTo(f, n, rows - 1).value, Row(f, rows - 1, n).value;
    assert UpTo(f, n, rows).value == pre + row;
    UpToLen(f, n, rows - 1);
    RowOk(f, rows - 1, n);
    if i < rows - 1 {
      UpToSlot(f, n, rows - 1, i, j);
      OffsetMono(n, i + 1, rows - 1);
    } else {
      assert Slot(n, i, j) == |pre| + (j - i);
    }
  }

  /** A successful table up to `rows` holds Offset(n, rows) pairs, pair (i, j) in its slot. */
  lemma UpToSlots(f: PairFn, n: nat, rows: nat)
    requires rows <= n && UpTo(f, n, rows).Success?
    ensures var t := UpTo(f, n, rows).value;
      && |t| == Offset(n, rows)
      && (forall i, j :: 0 <= i < rows && i <= j < n ==> Slot(n, i, j) < |t|)
      && forall i, j :: 0 <= i < rows && i <= j < n ==> f(i, j).Success? && t[Slot(n, i, j)] == f(i, j).value
  {
    UpToLen(f, n, rows);
    forall i, j | 0 <= i < rows && i <= j < n
      ensures Slot(n, i, j) < |UpTo(f, n, rows).value|
      ensures f(i, j).Success? && UpTo(f, n, rows).value[Slot(n, i, j)] == f(i, j).value
    {
      UpToSlot(f, n, rows, i, j);
    }
  }

  /** The whole table of n rows: it succeeds exactly when every pair does, and then holds every pair in its slot. */
  lemma TableOk(f: PairFn, n: nat)
    ensures UpTo(f, n, n).Success? <==> forall i, j :: 0 <= i <= j < n ==> f(i, j).Success?
    ensures UpTo(f, n, n).Success? ==>
      var t := UpTo(f, n, n).value;
      && 2 * |t| == n * (n + 1)
      && (forall i, j :: 0 <= i <= j < n ==> Slot(n, i, j) < |t|)
      && forall i, j :: 0 <= i <= j < n ==> t[Slot(n, i, j)] == f(i, j).value
  {
    UpToOk(f, n, n);
    if UpTo(f, n, n).Success? {
      UpToSlots(f, n, n);
      OffsetClosed(n, n);
    }
  }

  /**
   * The table of n types succeeds exactly when every pair i <= j mixes; it
   * then holds n(n+1)/2 pairs, pair (i, j) in slot Offset(n, i) + j - i.
   */
  lemma VdwTableOk(ats: seq<Atom>, mix: string, sqrt: real -> real)
    requires Parameterised(ats)
    ensures VdwTable(ats, mix, sqrt).Success? <==>
      forall i, j :: 0 <= i <= j < |ats| ==> Mix(ats[i], ats[j], mix, sqrt).Success?
    ensures VdwTable(ats, mix, sqrt).Success? ==>
      var t := VdwTable(ats, mix, sqrt).value;
      && 2 * |t| == |ats| * (|ats| + 1)
      && (forall i, j :: 0 <= i <= j < |ats| ==> Slot(|ats|, i, j) < |t|)
      && forall i, j :: 0 <= i <= j < |ats| ==> t[Slot(|ats|, i, j)] == Mix(ats[i], ats[j], mix, sqrt).value
  {
    var f := PairOf(ats, mix, sqrt);
    forall i, j | 0 <= i <= j < |ats|
      ensures f(i, j) == Mix(ats[i], ats[j], mix, sqrt)
    {
    }
    TableOk(f, |ats|);
  }

  /**
   * A failing table fails with the error of its first failing pair in the
   * loops' order: every pair (i', j'), i' <= j', before (i, j) row by row mixes.
   */
  lemma VdwTableError(ats: seq<Atom>, mix: string, sqrt: real -> real)
    requires Parameterised(ats) && VdwTable(ats, mix, sqrt).Failure?
    ensures exists i, j :: && 0 <= i <= j < |ats|
                           && Mix(ats[i], ats[j], mix, sqrt) == Failure(VdwTable(ats, mix, sqrt).error)
                           && forall i', j' :: (i' < i || (i' == i && j' < j)) && 0 <= i' <= j' < |ats| ==>
                                Mix(ats[i'], ats[j'], mix, sqrt).Success?
  {
    var f := PairOf(ats, mix, sqrt);
    var i := UpToFirstRow(f, |ats|, |ats|);
    UpToOk(f, |ats|, i);
    RowFirstError(f, i, |ats|);
    var j :| && i <= j < |ats| && f(i, j) == Failure(Row(f, i, |ats|).error)
             && forall j' :: i <= j' < j ==> f(i, j').Success?;
    forall i', j' | (i' < i || (i' == i && j' < j)) && 0 <= i' <= j' < |ats|
      ensures Mix(ats[i'], ats[j'], mix, sqrt).Success?
    {
      assert f(i', j').Success?;
    }
  }

  /** The row whose failure is the table's; the rows before it all succeed. */
  lemma {:induction false} UpToFirstRow(f: PairFn, n: nat, rows: nat) returns (i: nat)
    requires rows <= n && UpTo(f, n, rows).Failure?
    ensures i < rows && Row(f, i, n).Failure? && Row(f, i, n).error == UpTo(f, n, rows).error
    ensures UpTo(f, n, i).Success?
  {
    if UpTo(f, n, rows - 1).Failure? {
      i := UpToFirstRow(f, n, rows - 1);
    } else {
      i := rows - 1;
    }
  }
}
