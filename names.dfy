/** Construction of the list of nameserver names to probe (`get_nsnames`),
    with Python's ordering of strings and `sorted` on a list of names. */
module Names {
  import opened Types

  /** Python's `a <= b` on strings: lexicographic by code point. */
  predicate LessEq(a: string, b: string)
    decreases |a|
  {
    if a == [] then true
    else if b == [] then false
    else if a[0] != b[0] then a[0] < b[0]
    else LessEq(a[1..], b[1..])
  }

  lemma {:induction false} LessEqTotal(a: string, b: string)
    ensures LessEq(a, b) || LessEq(b, a)
    decreases |a|
  {
    if a != [] && b != [] && a[0] == b[0] {
      LessEqTotal(a[1..], b[1..]);
    }
  }

  lemma {:induction false} LessEqReflexive(a: string)
    ensures LessEq(a, a)
    decreases |a|
  {
    if a != [] {
      LessEqReflexive(a[1..]);
    }
  }

  lemma {:induction false} LessEqTransitive(a: string, b: string, c: string)
    requires LessEq(a, b) && LessEq(b, c)
    ensures LessEq(a, c)
    decreases |a|
  {
    if a != [] && b != [] && c != [] && a[0] == b[0] == c[0] {
      LessEqTransitive(a[1..], b[1..], c[1..]);
    }
  }

  lemma {:induction false} LessEqAntisymmetric(a: string, b: string)
    requires LessEq(a, b) && LessEq(b, a)
    ensures a == b
    decreases |a|
  {
    if a != [] && b != [] {
      LessEqAntisymmetric(a[1..], b[1..]);
      assert a == [a[0]] + a[1..] && b == [b[0]] + b[1..];
    }
  }

  predicate IsSorted(s: seq<string>) {
    forall i, j :: 0 <= i < j < |s| ==> LessEq(s[i], s[j])
  }

  /** A name at most every name of a sorted list can lead it. */
  lemma ConsSorted(h: string, t: seq<string>)
    requires IsSorted(t)
    requires forall y :: y in t ==> LessEq(h, y)
    ensures IsSorted([h] + t)
  {
    forall i, j | 0 <= i < j < |[h] + t| ensures LessEq(([h] + t)[i], ([h] + t)[j]) {
      if i == 0 {
        assert ([h] + t)[j] == t[j - 1];
        assert t[j - 1] in t;
      } else {
        assert ([h] + t)[i] == t[i - 1] && ([h] + t)[j] == t[j - 1];
      }
    }
  }

  /** A name at most the head of a sorted list is at most all of it. */
  lemma BelowHead(x: string, s: seq<string>)
    requires IsSorted(s) && s != [] && LessEq(x, s[0])
    ensures forall y :: y in s ==> LessEq(x, y)
  {
    forall y | y in s ensures LessEq(x, y) {
      var j :| 0 <= j < |s| && s[j] == y;
      if j > 0 { LessEqTransitive(x, s[0], s[j]); }
    }
  }

  /** The head of a sorted list is at most what inserting a larger name
      into its tail produces. */
  lemma HeadBelowInserted(x: string, s: seq<string>, tail: seq<string>)
    requires IsSorted(s) && s != [] && !LessEq(x, s[0])
    requires multiset(tail) == multiset(s[1..]) + multiset{x}
    ensures forall y :: y in tail ==> LessEq(s[0], y)
  {
    forall y | y in tail ensures LessEq(s[0], y) {
      assert y in multiset(tail);
      if y == x {
        LessEqTotal(x, s[0]);
      } else {
        assert y in multiset(s[1..]);
        var j :| 0 <= j < |s[1..]| && s[1..][j] == y;
        assert s[j + 1] == y;
      }
    }
  }

  /** Insert `x` into a sorted list, before the first name it does not exceed. */
  function Insert(x: string, s: seq<string>): (r: seq<string>)
    requires IsSorted(s)
    ensures IsSorted(r)
    ensures multiset(r) == multiset(s) + multiset{x}
  {
    if s == [] then [x]
    else if LessEq(x, s[0]) then
      BelowHead(x, s);
      ConsSorted(x, s);
      [x] + s
    else
      var tail := Insert(x, s[1..]);
      HeadBelowInserted(x, s, tail);
      ConsSorted(s[0], tail);
      assert s == [s[0]] + s[1..];
      [s[0]] + tail
  }

  /** `sorted(names)`. */
  function SortNames(s: seq<string>): (r: seq<string>)
    ensures IsSorted(r)
    ensures multiset(r) == multiset(s)
  {
    if s == [] then []
    else
      assert s == [s[0]] + s[1..];
      Insert(s[0], SortNames(s[1..]))
  }

  /** The head of a sorted list is at most each of its names. */
  lemma HeadIsLeast(s: seq<string>, y: string)
    requires IsSorted(s) && y in s
    ensures LessEq(s[0], y)
  {
    var i :| 0 <= i < |s| && s[i] == y;
    if i == 0 { LessEqReflexive(y); }
  }

  lemma TailMultiset(s: seq<string>)
    requires s != []
    ensures multiset(s[1..]) == multiset(s) - multiset{s[0]}
  {
    assert s == [s[0]] + s[1..];
  }

  /** Sorted lists with the same names start with the same name. */
  lemma SameHead(a: seq<string>, b: seq<string>)
    requires IsSorted(a) && IsSorted(b) && multiset(a) == multiset(b) && a != []
    ensures b != [] && a[0] == b[0]
  {
    assert a[0] in multiset(b);
    assert b[0] in multiset(a);
    HeadIsLeast(a, b[0]);
    HeadIsLeast(b, a[0]);
    LessEqAntisymmetric(a[0], b[0]);
  }

  /** Two sorted lists with the same names are the same list, so "sorted and
      a permutation" pins down what `sorted` returns. */
  lemma {:induction false} SortedPermutationUnique(a: seq<string>, b: seq<string>)
    requires IsSorted(a) && IsSorted(b) && multiset(a) == multiset(b)
    ensures a == b
  {
    if a == [] {
      assert |multiset(b)| == 0;
    } else {
      SameHead(a, b);
      TailMultiset(a);
      TailMultiset(b);
      assert IsSorted(a[1..]) && IsSorted(b[1..]);
      SortedPermutationUnique(a[1..], b[1..]);
      assert a == [a[0]] + a[1..] && b == [b[0]] + b[1..];
    }
  }

  /** The names to probe. When the published NS set is skipped, the
      additional names exactly, and the usage exit when there are none;
      otherwise the additional names, as given, followed by the NS targets
      in sorted order. `nsTargets` stands for the targets of the zone's NS
      RRset as the resolver returns them. */
  function GetNsNames(noNsSet: bool, additional: seq<string>, nsTargets: seq<string>)
    : (r: Result<seq<string>, Stop>)
    ensures noNsSet && additional != [] ==> r == Ok(additional)
    ensures noNsSet && additional == [] ==> r == Err(SysExit(4))
    ensures !noNsSet ==>
              && r.Ok?
              && |r.value| == |additional| + |nsTargets|
              && r.value[..|additional|] == additional
              && IsSorted(r.value[|additional|..])
              && multiset(r.value[|additional|..]) == multiset(nsTargets)
  {
    if noNsSet then
      if additional == [] then Err(SysExit(4)) else Ok(additional)
    else
      var sorted := SortNames(nsTargets);
      assert (additional + sorted)[|additional|..] == sorted;
      assert |sorted| == |multiset(sorted)| == |nsTargets|;
      Ok(additional + sorted)
  }
}
