/**
 * Type names of bonded terms. The source builds a term's name by joining the
 * atom-type labels with '-' ('%s-%s-%s') and compares such strings, trying the
 * record's labels forwards and reversed.
 */
module Names {

  /** The labels joined with '-', as the source formats '%s-%s[-%s[-%s]]'. */
  function Join(labels: seq<string>): string
  {
    if |labels| == 0 then ""
    else if |labels| == 1 then labels[0]
    else labels[0] + "-" + Join(labels[1..])
  }

  function Reverse(labels: seq<string>): (r: seq<string>)
    ensures |r| == |labels|
  {
    if |labels| == 0 then [] else Reverse(labels[1..]) + [labels[0]]
  }

  /** The reversed labels, position by position. */
  lemma {:induction false} ReverseAt(labels: seq<string>)
    ensures forall k :: 0 <= k < |labels| ==> Reverse(labels)[k] == labels[|labels| - 1 - k]
  {
    if |labels| > 0 {
      ReverseAt(labels[1..]);
    }
  }

  /** A term name matches a record when it equals the record's name forwards or reversed. */
  predicate NameMatches(name: string, labels: seq<string>)
  {
    name == Join(labels) || name == Join(Reverse(labels))
  }

  predicate DashFree(s: string)
  {
    '-' !in s
  }

  predicate AllDashFree(labels: seq<string>)
  {
    forall k :: 0 <= k < |labels| ==> DashFree(labels[k])
  }

  /** A name joined from two or more labels always contains the separator. */
  lemma JoinHasDash(labels: seq<string>)
    requires |labels| >= 2
    ensures '-' in Join(labels)
  {
    assert Join(labels)[|labels[0]|] == '-';
  }

  /**
   * With dash-free labels, equal joined names come from equal label lists:
   * the string comparison of the source then decides label-by-label equality.
   */
  lemma {:induction false} JoinInjective(xs: seq<string>, ys: seq<string>)
    requires |xs| == |ys| && AllDashFree(xs) && AllDashFree(ys)
    requires Join(xs) == Join(ys)
    ensures xs == ys
  {
    if |xs| >= 2 {
      var a, b := xs[0], ys[0];
      var s := Join(xs);
      assert s == a + "-" + Join(xs[1..]);
      assert s == b + "-" + Join(ys[1..]);
      // the first separator of s sits right after the first label on both sides
      assert s[|a|] == '-' && s[|b|] == '-';
      assert forall k :: 0 <= k < |a| ==> s[k] == a[k] && s[k] != '-';
      assert forall k :: 0 <= k < |b| ==> s[k] == b[k] && s[k] != '-';
      assert |a| == |b|;
      assert a == s[..|a|] == b;
      assert Join(xs[1..]) == s[|a| + 1..] == Join(ys[1..]);
      JoinInjective(xs[1..], ys[1..]);
      assert xs == [a] + xs[1..];
      assert ys == [b] + ys[1..];
    }
  }

  lemma ReverseReverse(labels: seq<string>)
    ensures Reverse(Reverse(labels)) == labels
  {
    ReverseAt(labels);
    ReverseAt(Reverse(labels));
  }

  /** Reversing keeps the labels, so dash-free labels stay dash-free. */
  lemma ReverseDashFree(labels: seq<string>)
    requires AllDashFree(labels)
    ensures AllDashFree(Reverse(labels))
  {
    ReverseAt(labels);
  }

  /**
   * For dash-free labels of the record's arity, whether a term name matches a
   * record does not depend on the direction in which the term's atoms are read.
   */
  lemma MatchReversed(xs: seq<string>, labels: seq<string>)
    requires |xs| == |labels| && AllDashFree(xs) && AllDashFree(labels)
    ensures NameMatches(Join(xs), labels) <==> NameMatches(Join(Reverse(xs)), labels)
  {
    var rx, rl := Reverse(xs), Reverse(labels);
    ReverseDashFree(xs);
    ReverseDashFree(labels);
    ReverseReverse(xs);
    ReverseReverse(labels);
    if Join(xs) == Join(labels) {
      JoinInjective(xs, labels);
    }
    if Join(xs) == Join(rl) {
      JoinInjective(xs, rl);
    }
    if Join(rx) == Join(labels) {
      JoinInjective(rx, labels);
    }
    if Join(rx) == Join(rl) {
      JoinInjective(rx, rl);
    }
  }

  /**
   * With a '-' inside a label the string comparison is not label-wise: the name
   * 'A-B-C' of the types ("A-B", "C") matches the record ("A", "B-C") forwards,
   * while the same types taken in the other order do not match it.
   */
  lemma DashedLabelsBreakSymmetry()
    ensures NameMatches(Join(["A-B", "C"]), ["A", "B-C"])
    ensures !NameMatches(Join(["C", "A-B"]), ["A", "B-C"])
  {
    assert Join(["A-B", "C"]) == "A-B-C";
    assert Join(["C", "A-B"]) == "C-A-B";
    assert Join(["A", "B-C"]) == "A-B-C";
    assert Reverse(["A", "B-C"]) == ["B-C", "A"];
    assert Join(["B-C", "A"]) == "B-C-A";
    assert "C-A-B" != "A-B-C" by { assert "C-A-B"[0] != "A-B-C"[0]; }
    assert "C-A-B" != "B-C-A" by { assert "C-A-B"[0] != "B-C-A"[0]; }
  }
}
