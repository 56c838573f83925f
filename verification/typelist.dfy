/**
 * The type lists of a system (`system.build_type_list` and
 * `system.assign_type_index`): the distinct atom or term types, each
 * represented by the first atom or term of its name, and the numbering that
 * gives every atom and term the position of its type in that list. The
 * definitions are generic in the element type; `nameOf` reads an element's
 * name and `setIndex` sets its `ityp`.
 */
module TypeList {
  import opened Wrappers

  /** Some entry of the list has the name. */
  predicate HasName<T>(list: seq<T>, name: string, nameOf: T -> string)
  {
    exists i :: 0 <= i < |list| && nameOf(list[i]) == name
  }

  /** No two entries share a name. */
  predicate DistinctNames<T>(list: seq<T>, nameOf: T -> string)
  {
    forall i, j :: 0 <= i < j < |list| ==> nameOf(list[i]) != nameOf(list[j])
  }

  /**
   * `build_type_list`: each item whose name the list lacks is appended, in item
   * order; so the list gains at most one entry per item.
   */
  function AddTypes<T>(list: seq<T>, items: seq<T>, nameOf: T -> string): (r: seq<T>)
    ensures |list| <= |r| <= |list| + |items|
    decreases |items|
  {
    if |items| == 0 then list
    else
      var prev := AddTypes(list, items[..|items| - 1], nameOf);
      var a := items[|items| - 1];
      if HasName(prev, nameOf(a), nameOf) then prev else prev + [a]
  }

  /** The position of the first of the first n entries that has the name. */
  function FirstIndex<T>(list: seq<T>, name: string, nameOf: T -> string, n: nat): (r: Option<nat>)
    requires n <= |list|
    ensures r.Some? ==> r.value < n && nameOf(list[r.value]) == name
    ensures r.Some? ==> forall i :: 0 <= i < r.value ==> nameOf(list[i]) != name
    ensures r.None? ==> forall i :: 0 <= i < n ==> nameOf(list[i]) != name
  {
    if n == 0 then None
    else
      match FirstIndex(list, name, nameOf, n - 1)
      case Some(i) => Some(i)
      case None => if nameOf(list[n - 1]) == name then Some(n - 1) else None
  }

  /** The index of a name's type: the first entry of that name. */
  function IndexOf<T>(list: seq<T>, name: string, nameOf: T -> string): Option<nat>
  {
    FirstIndex(list, name, nameOf, |list|)
  }

  /** A term numbered by the list: `ityp` set to its type's index, unchanged when its name is absent. */
  function Numbered<T>(t: T, list: seq<T>, nameOf: T -> string, setIndex: (T, int) -> T): T
  {
    match IndexOf(list, nameOf(t), nameOf)
    case None => t
    case Some(i) => setIndex(t, i)
  }

  /** Every term of the list numbered. */
  function NumberedAll<T>(terms: seq<T>, list: seq<T>, nameOf: T -> string, setIndex: (T, int) -> T): (r: seq<T>)
    ensures |r| == |terms| && forall k :: 0 <= k < |terms| ==> r[k] == Numbered(terms[k], list, nameOf, setIndex)
  {
    seq(|terms|, k requires 0 <= k < |terms| => Numbered(terms[k], list, nameOf, setIndex))
  }

  /** Entry i is the type of one of the first k terms. */
  predicate HitBy<T>(list: seq<T>, terms: seq<T>, nameOf: T -> string, k: nat, i: nat)
    requires k <= |terms|
  {
    exists e :: 0 <= e < k && IndexOf(list, nameOf(terms[e]), nameOf) == Some(i)
  }

  /** The list after numbering the terms: every entry some term was numbered by carries its own index. */
  function Marked<T>(list: seq<T>, terms: seq<T>, nameOf: T -> string, setIndex: (T, int) -> T): (r: seq<T>)
    ensures |r| == |list|
    ensures forall i :: 0 <= i < |list| ==> r[i] == list[i] || r[i] == setIndex(list[i], i)
  {
    seq(|list|, i requires 0 <= i < |list| =>
      if HitBy(list, terms, nameOf, |terms|, i) then setIndex(list[i], i) else list[i])
  }

  /** `setIndex` changes no name and setting the same index twice is setting it once. */
  ghost predicate IndexSetter<T(!new)>(nameOf: T -> string, setIndex: (T, int) -> T)
  {
    && (forall x, i :: nameOf(setIndex(x, i)) == nameOf(x))
    && (forall x, i :: setIndex(setIndex(x, i), i) == setIndex(x, i))
  }

  // ---------------------------------------------------------------- the loops

  /** The loop of `build_type_list`. */
  method BuildTypeList<T>(items: seq<T>, list: seq<T>, nameOf: T -> string) returns (r: seq<T>)
    ensures r == AddTypes(list, items, nameOf)
  {
    r := list;
    for k := 0 to |items|
      invariant r == AddTypes(list, items[..k], nameOf)
    {
      var a := items[k];
      var found := false;
      for q := 0 to |r|
        invariant found <==> exists i :: 0 <= i < q && nameOf(r[i]) == nameOf(a)
      {
        if nameOf(a) == nameOf(r[q]) {
          found := true;
        }
      }
      assert items[..k + 1][..k] == items[..k];
      if !found {
        r := r + [a];
      }
    }
    assert items[..|items|] == items;
  }

  /** The inner search of `assign_type_index`: the first entry of the name, the loop leaving at it. */
  method FindType<T>(list: seq<T>, name: string, nameOf: T -> string) returns (r: Option<nat>)
    ensures r == IndexOf(list, name, nameOf)
  {
    var i := 0;
    while i < |list|
      invariant i <= |list| && FirstIndex(list, name, nameOf, i).None?
    {
      if name == nameOf(list[i]) {
        return Some(i);
      }
      i := i + 1;
    }
    return None;
  }

  /**
   * The loop of `assign_type_index`: each term, and the list entry of its type,
   * get the index of that entry.
   */
  method AssignTypeIndex<T(!new)>(terms: seq<T>, list: seq<T>, nameOf: T -> string, setIndex: (T, int) -> T)
    returns (terms2: seq<T>, list2: seq<T>)
    requires IndexSetter(nameOf, setIndex)
    ensures |terms2| == |terms| && forall k :: 0 <= k < |terms| ==> terms2[k] == Numbered(terms[k], list, nameOf, setIndex)
    ensures list2 == Marked(list, terms, nameOf, setIndex)
  {
    terms2, list2 := terms, list;
    for k := 0 to |terms|
      invariant |terms2| == |terms| && |list2| == |list|
      invariant forall e :: 0 <= e < k ==> terms2[e] == Numbered(terms[e], list, nameOf, setIndex)
      invariant forall e :: k <= e < |terms| ==> terms2[e] == terms[e]
      invariant forall i :: 0 <= i < |list| ==> list2[i] == if HitBy(list, terms, nameOf, k, i) then setIndex(list[i], i) else list[i]
    {
      SameNamesIndex(list, list2, nameOf, setIndex, terms, k);
      var r := FindType(list2, nameOf(terms2[k]), nameOf);
      if r.Some? {
        var i := r.value;
        terms2 := terms2[k := setIndex(terms2[k], i)];
        list2 := list2[i := setIndex(list2[i], i)];
      }
      forall j | 0 <= j < |list|
        ensures HitBy(list, terms, nameOf, k + 1, j) <==> HitBy(list, terms, nameOf, k, j) || IndexOf(list, nameOf(terms[k]), nameOf) == Some(j)
      {
        if HitBy(list, terms, nameOf, k + 1, j) && !HitBy(list, terms, nameOf, k, j) {
          var e :| 0 <= e < k + 1 && IndexOf(list, nameOf(terms[e]), nameOf) == Some(j);
          assert e == k;
        }
      }
    }
    assert list2 == Marked(list, terms, nameOf, setIndex);
  }

  /** During the numbering the list keeps its names, so the search finds what it would in the original. */
  lemma SameNamesIndex<T(!new)>(list: seq<T>, list2: seq<T>, nameOf: T -> string, setIndex: (T, int) -> T, terms: seq<T>, k: nat)
    requires IndexSetter(nameOf, setIndex) && k <= |terms|
    requires |list2| == |list| && forall i :: 0 <= i < |list| ==> list2[i] == if HitBy(list, terms, nameOf, k, i) then setIndex(list[i], i) else list[i]
    ensures forall name :: IndexOf(list2, name, nameOf) == IndexOf(list, name, nameOf)
  {
    forall name
      ensures IndexOf(list2, name, nameOf) == IndexOf(list, name, nameOf)
    {
      FirstIndexByName(list, list2, name, nameOf, |list|);
    }
  }

  /** The search depends on the entries' names only. */
  lemma {:induction false} FirstIndexByName<T>(l1: seq<T>, l2: seq<T>, name: string, nameOf: T -> string, n: nat)
    requires n <= |l1| == |l2| && forall i :: 0 <= i < |l1| ==> nameOf(l1[i]) == nameOf(l2[i])
    ensures FirstIndex(l1, name, nameOf, n) == FirstIndex(l2, name, nameOf, n)
  {
    if n > 0 {
      FirstIndexByName(l1, l2, name, nameOf, n - 1);
    }
  }

  // ---------------------------------------------------------------- properties

  /** The list grows only at its end: earlier types keep their positions. */
  lemma {:induction false} AddTypesPrefix<T>(list: seq<T>, items: seq<T>, nameOf: T -> string)
    ensures AddTypes(list, items, nameOf)[..|list|] == list
    decreases |items|
  {
    if |items| > 0 {
      AddTypesPrefix(list, items[..|items| - 1], nameOf);
      var prev := AddTypes(list, items[..|items| - 1], nameOf);
      assert (prev + [items[|items| - 1]])[..|list|] == prev[..|list|];
    }
  }

  /** A name has a type after the build exactly when it had one before or some item has it. */
  lemma {:induction false} AddTypesNames<T>(list: seq<T>, items: seq<T>, nameOf: T -> string, name: string)
    ensures HasName(AddTypes(list, items, nameOf), name, nameOf) <==> HasName(list, name, nameOf) || HasName(items, name, nameOf)
    decreases |items|
  {
    if |items| > 0 {
      var init, a := items[..|items| - 1], items[|items| - 1];
      var prev := AddTypes(list, init, nameOf);
      AddTypesNames(list, init, nameOf, name);
      AddTypesNames(list, init, nameOf, nameOf(a));
      assert HasName(items, name, nameOf) <==> HasName(init, name, nameOf) || nameOf(a) == name by {
        if HasName(items, name, nameOf) && nameOf(a) != name {
          var i :| 0 <= i < |items| && nameOf(items[i]) == name;
          assert init[i] == items[i];
        }
        if HasName(init, name, nameOf) {
          var i :| 0 <= i < |init| && nameOf(init[i]) == name;
          assert items[i] == init[i];
        }
        if nameOf(a) == name {
          assert nameOf(items[|items| - 1]) == name;
        }
      }
      if !HasName(prev, nameOf(a), nameOf) {
        var r := prev + [a];
        if HasName(r, name, nameOf) && nameOf(a) != name {
          var i :| 0 <= i < |r| && nameOf(r[i]) == name;
          assert prev[i] == r[i];
        }
        if HasName(prev, name, nameOf) {
          var i :| 0 <= i < |prev| && nameOf(prev[i]) == name;
          assert r[i] == prev[i];
        }
        assert nameOf(r[|prev|]) == nameOf(a);
      }
    }
  }

  /** The build never adds a name twice: a list of distinct types stays one. */
  lemma {:induction false} AddTypesDistinct<T>(list: seq<T>, items: seq<T>, nameOf: T -> string)
    requires DistinctNames(list, nameOf)
    ensures DistinctNames(AddTypes(list, items, nameOf), nameOf)
    decreases |items|
  {
    if |items| > 0 {
      var init, a := items[..|items| - 1], items[|items| - 1];
      AddTypesDistinct(list, init, nameOf);
      var prev := AddTypes(list, init, nameOf);
      if !HasName(prev, nameOf(a), nameOf) {
        var r := prev + [a];
        forall i, j | 0 <= i < j < |r|
          ensures nameOf(r[i]) != nameOf(r[j])
        {
          if j == |prev| {
            assert r[i] == prev[i];
          }
        }
      }
    }
  }

  /** Building over two item lists in turn is building over their concatenation: one list for all molecules. */
  lemma {:induction false} AddTypesConcat<T>(list: seq<T>, a: seq<T>, b: seq<T>, nameOf: T -> string)
    ensures AddTypes(AddTypes(list, a, nameOf), b, nameOf) == AddTypes(list, a + b, nameOf)
    decreases |b|
  {
    if |b| == 0 {
      assert a + b == a;
    } else {
      var init := b[..|b| - 1];
      AddTypesConcat(list, a, init, nameOf);
      assert (a + b)[..|a + b| - 1] == a + init;
      assert (a + b)[|a + b| - 1] == b[|b| - 1];
    }
  }

  /** Items whose names all have a type add nothing. */
  lemma {:induction false} AddTypesKnown<T>(list: seq<T>, items: seq<T>, nameOf: T -> string)
    requires forall p :: 0 <= p < |items| ==> HasName(list, nameOf(items[p]), nameOf)
    ensures AddTypes(list, items, nameOf) == list
    decreases |items|
  {
    if |items| > 0 {
      AddTypesKnown(list, items[..|items| - 1], nameOf);
    }
  }

  /** Building the list a second time from the same items changes nothing. */
  lemma AddTypesIdempotent<T>(list: seq<T>, items: seq<T>, nameOf: T -> string)
    ensures var r := AddTypes(list, items, nameOf);
      AddTypes(r, items, nameOf) == r
  {
    var r := AddTypes(list, items, nameOf);
    forall p | 0 <= p < |items|
      ensures HasName(r, nameOf(items[p]), nameOf)
    {
      AddTypesNames(list, items, nameOf, nameOf(items[p]));
    }
    AddTypesKnown(r, items, nameOf);
  }

  /**
   * Each type the build adds is the first item of its name, and that name had
   * no type before: the type list keeps the first atom or term of each name.
   */
  lemma {:induction false} AddTypesFirst<T>(list: seq<T>, items: seq<T>, nameOf: T -> string, k: nat)
    requires |list| <= k < |AddTypes(list, items, nameOf)|
    ensures var r := AddTypes(list, items, nameOf);
      && !HasName(list, nameOf(r[k]), nameOf)
      && IndexOf(items, nameOf(r[k]), nameOf).Some?
      && r[k] == items[IndexOf(items, nameOf(r[k]), nameOf).value]
    decreases |items|
  {
    var r := AddTypes(list, items, nameOf);
    var init, a := items[..|items| - 1], items[|items| - 1];
    var prev := AddTypes(list, init, nameOf);
    AddTypesPrefix(list, init, nameOf);
    if k < |prev| {
      AddTypesFirst(list, init, nameOf, k);
      assert r[k] == prev[k];
      FirstIndexExtend(items, nameOf(r[k]), nameOf);
    } else {
      assert r[k] == a && !HasName(prev, nameOf(a), nameOf);
      AddTypesNames(list, init, nameOf, nameOf(a));
      FirstIndexExtend(items, nameOf(a), nameOf);
    }
  }

  /**
   * The added types keep the order in which their names first occur among the
   * items: the type list, and so every `ityp`, follows first occurrence.
   */
  lemma {:induction false} AddTypesOrder<T>(list: seq<T>, items: seq<T>, nameOf: T -> string, a: nat, b: nat)
    requires |list| <= a < b < |AddTypes(list, items, nameOf)|
    ensures var r := AddTypes(list, items, nameOf);
      && IndexOf(items, nameOf(r[a]), nameOf).Some?
      && IndexOf(items, nameOf(r[b]), nameOf).Some?
      && IndexOf(items, nameOf(r[a]), nameOf).value < IndexOf(items, nameOf(r[b]), nameOf).value
    decreases |items|
  {
    var r := AddTypes(list, items, nameOf);
    var init, x := items[..|items| - 1], items[|items| - 1];
    var prev := AddTypes(list, init, nameOf);
    AddTypesFirst(list, items, nameOf, a);
    AddTypesFirst(list, items, nameOf, b);
    AddTypesFirst(list, init, nameOf, a);
    assert r[a] == prev[a];
    FirstIndexExtend(items, nameOf(r[a]), nameOf);
    if b < |prev| {
      // both types were already added from the shorter item list
      AddTypesOrder(list, init, nameOf, a, b);
      assert r[b] == prev[b];
      FirstIndexExtend(items, nameOf(r[b]), nameOf);
    } else {
      // the last item is added, so no earlier item has its name
      assert r[b] == x;
      AddTypesNames(list, init, nameOf, nameOf(x));
      FirstIndexExtend(items, nameOf(x), nameOf);
      assert IndexOf(init, nameOf(x), nameOf).None? by {
        if IndexOf(init, nameOf(x), nameOf).Some? {
          assert HasName(init, nameOf(x), nameOf);
        }
      }
    }
  }

  /** The search over a list's first n - 1 entries is the search over the list without its last entry. */
  lemma FirstIndexExtend<T>(items: seq<T>, name: string, nameOf: T -> string)
    requires |items| > 0
    ensures FirstIndex(items[..|items| - 1], name, nameOf, |items| - 1) == FirstIndex(items, name, nameOf, |items| - 1)
  {
    FirstIndexByName(items[..|items| - 1], items[..|items| - 1], name, nameOf, |items| - 1);
    FirstIndexPrefix(items, |items| - 1, name, nameOf, |items| - 1);
  }

  lemma {:induction false} FirstIndexPrefix<T>(items: seq<T>, m: nat, name: string, nameOf: T -> string, n: nat)
    requires n <= m <= |items|
    ensures FirstIndex(items[..m], name, nameOf, n) == FirstIndex(items, name, nameOf, n)
  {
    if n > 0 {
      FirstIndexPrefix(items, m, name, nameOf, n - 1);
    }
  }

  /** In a list of distinct types, a term is numbered by the one entry of its name. */
  lemma NumberedByName<T(!new)>(t: T, list: seq<T>, nameOf: T -> string, setIndex: (T, int) -> T, i: nat)
    requires DistinctNames(list, nameOf) && i < |list| && nameOf(list[i]) == nameOf(t)
    ensures IndexOf(list, nameOf(t), nameOf) == Some(i)
    ensures Numbered(t, list, nameOf, setIndex) == setIndex(t, i)
  {
  }

  /**
   * When every entry's name occurs among the terms and the names are
   * distinct, numbering the terms gives every entry its own position.
   */
  lemma MarkedAll<T(!new)>(list: seq<T>, terms: seq<T>, nameOf: T -> string, setIndex: (T, int) -> T)
    requires DistinctNames(list, nameOf)
    requires forall i :: 0 <= i < |list| ==> HasName(terms, nameOf(list[i]), nameOf)
    ensures forall i :: 0 <= i < |list| ==> Marked(list, terms, nameOf, setIndex)[i] == setIndex(list[i], i)
  {
    forall i | 0 <= i < |list|
      ensures HitBy(list, terms, nameOf, |terms|, i)
    {
      var e :| 0 <= e < |terms| && nameOf(terms[e]) == nameOf(list[i]);
      NumberedByName(terms[e], list, nameOf, setIndex, i);
    }
  }

  /** Numbering no terms leaves the list as it was. */
  lemma MarkedNone<T>(list: seq<T>, nameOf: T -> string, setIndex: (T, int) -> T)
    ensures Marked(list, [], nameOf, setIndex) == list
  {
    forall i | 0 <= i < |list|
      ensures Marked(list, [], nameOf, setIndex)[i] == list[i]
    {
      assert !HitBy(list, [], nameOf, 0, i);
    }
  }

  /** Numbering keeps every entry's name. */
  lemma MarkedNames<T(!new)>(list: seq<T>, terms: seq<T>, nameOf: T -> string, setIndex: (T, int) -> T)
    requires IndexSetter(nameOf, setIndex)
    ensures forall i :: 0 <= i < |list| ==> nameOf(Marked(list, terms, nameOf, setIndex)[i]) == nameOf(list[i])
  {
  }

  /** A list with the same names numbers every term the same way. */
  lemma NumberedByNames<T>(terms: seq<T>, l1: seq<T>, l2: seq<T>, nameOf: T -> string, setIndex: (T, int) -> T)
    requires |l1| == |l2| && forall i :: 0 <= i < |l1| ==> nameOf(l1[i]) == nameOf(l2[i])
    ensures NumberedAll(terms, l1, nameOf, setIndex) == NumberedAll(terms, l2, nameOf, setIndex)
  {
    forall k | 0 <= k < |terms|
      ensures IndexOf(l1, nameOf(terms[k]), nameOf) == IndexOf(l2, nameOf(terms[k]), nameOf)
    {
      FirstIndexByName(l1, l2, nameOf(terms[k]), nameOf, |l1|);
    }
  }

  /**
   * Numbering the terms of one molecule after another marks the list as
   * numbering all their terms at once.
   */
  lemma MarkedConcat<T(!new)>(list: seq<T>, t1: seq<T>, t2: seq<T>, nameOf: T -> string, setIndex: (T, int) -> T)
    requires IndexSetter(nameOf, setIndex)
    ensures Marked(Marked(list, t1, nameOf, setIndex), t2, nameOf, setIndex) == Marked(list, t1 + t2, nameOf, setIndex)
  {
    var m1 := Marked(list, t1, nameOf, setIndex);
    MarkedNames(list, t1, nameOf, setIndex);
    forall i | 0 <= i < |list|
      ensures HitBy(m1, t2, nameOf, |t2|, i) <==> HitBy(list, t2, nameOf, |t2|, i)
      ensures HitBy(list, t1 + t2, nameOf, |t1 + t2|, i) <==> HitBy(list, t1, nameOf, |t1|, i) || HitBy(list, t2, nameOf, |t2|, i)
    {
      forall e | 0 <= e < |t2|
        ensures IndexOf(m1, nameOf(t2[e]), nameOf) == IndexOf(list, nameOf(t2[e]), nameOf)
      {
        FirstIndexByName(m1, list, nameOf(t2[e]), nameOf, |list|);
      }
      if HitBy(list, t1 + t2, nameOf, |t1 + t2|, i) {
        var e :| 0 <= e < |t1 + t2| && IndexOf(list, nameOf((t1 + t2)[e]), nameOf) == Some(i);
        if e < |t1| {
          assert (t1 + t2)[e] == t1[e];
        } else {
          assert (t1 + t2)[e] == t2[e - |t1|];
        }
      }
      if HitBy(list, t1, nameOf, |t1|, i) {
        var e :| 0 <= e < |t1| && IndexOf(list, nameOf(t1[e]), nameOf) == Some(i);
        assert (t1 + t2)[e] == t1[e];
      }
      if HitBy(list, t2, nameOf, |t2|, i) {
        var e :| 0 <= e < |t2| && IndexOf(list, nameOf(t2[e]), nameOf) == Some(i);
        assert (t1 + t2)[|t1| + e] == t2[e];
      }
    }
  }

  /**
   * A list built from the items, then used to number them: every item gets
   * the position of the one entry of its name, and that entry carries the
   * same position.
   */
  lemma BuiltAndNumbered<T(!new)>(items: seq<T>, nameOf: T -> string, setIndex: (T, int) -> T, k: nat)
    requires IndexSetter(nameOf, setIndex) && k < |items|
    ensures var list := AddTypes([], items, nameOf);
      exists i :: && 0 <= i < |list| && nameOf(list[i]) == nameOf(items[k])
                  && Numbered(items[k], list, nameOf, setIndex) == setIndex(items[k], i)
                  && Marked(list, items, nameOf, setIndex)[i] == setIndex(list[i], i)
                  && forall i' :: 0 <= i' < |list| && i' != i ==> nameOf(list[i']) != nameOf(items[k])
  {
    var list := AddTypes([], items, nameOf);
    AddTypesDistinct([], items, nameOf);
    AddTypesNames([], items, nameOf, nameOf(items[k]));
    var i :| 0 <= i < |list| && nameOf(list[i]) == nameOf(items[k]);
    NumberedByName(items[k], list, nameOf, setIndex, i);
    forall j | 0 <= j < |list|
      ensures HasName(items, nameOf(list[j]), nameOf)
    {
      AddTypesNames([], items, nameOf, nameOf(list[j]));
    }
    MarkedAll(list, items, nameOf, setIndex);
  }
}
