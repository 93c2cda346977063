/**
 * Python's ordering of `str` values and the two sorts the page relies on:
 * `sorted(...)` of a list that may repeat names, and `sorted(list(s))` of a set.
 *
 * Python compares strings lexicographically by code point, a proper prefix
 * coming first. Dafny's `char` is a Unicode scalar value, so `<` on `char`
 * is the same code-point comparison.
 */
module Order {

  /** `a < b` on Python strings, compared one code point at a time. */
  predicate Less(a: string, b: string)
    decreases |a|
  {
    |b| > 0 && (|a| == 0 || a[0] < b[0] || (a[0] == b[0] && Less(a[1..], b[1..])))
  }

  /** `a` and `b` agree before position `k`, where `a` has the smaller code point. */
  ghost predicate SmallerAt(a: string, b: string, k: int) {
    0 <= k < |a| && k < |b| && a[..k] == b[..k] && a[k] < b[k]
  }

  /** `a` is a proper prefix of `b`. */
  ghost predicate ProperPrefix(a: string, b: string) {
    |a| < |b| && a == b[..|a|]
  }

  /**
   * The order as Python documents it: `a` is a proper prefix of `b`, or `a`
   * has the smaller code point at the first position where the two differ.
   */
  ghost predicate FirstDifferenceLess(a: string, b: string) {
    ProperPrefix(a, b) || exists k :: SmallerAt(a, b, k)
  }

  /** The recursive comparison is exactly the documented order. */
  lemma {:induction false} LessIsFirstDifference(a: string, b: string)
    ensures Less(a, b) <==> FirstDifferenceLess(a, b)
    decreases |a|
  {
    if |a| == 0 || |b| == 0 {
      if |a| == 0 && |b| > 0 {
        assert a == b[..0];
      }
    } else if a[0] != b[0] {
      FirstDifferenceAtHead(a, b);
    } else {
      LessIsFirstDifference(a[1..], b[1..]);
      PrefixAfterHead(a, b);
      SmallerAfterHead(a, b);
    }
  }

  /** Strings differing at their first position compare by that position. */
  lemma FirstDifferenceAtHead(a: string, b: string)
    requires |a| > 0 && |b| > 0 && a[0] != b[0]
    ensures FirstDifferenceLess(a, b) <==> a[0] < b[0]
  {
    assert a[..0] == b[..0];
    if |a| < |b| {
      assert b[..|a|][0] == b[0];
    }
    assert forall k :: 0 < k <= |a| && k <= |b| ==> a[..k][0] == a[0] && b[..k][0] == b[0];
    if a[0] < b[0] {
      assert SmallerAt(a, b, 0);
    }
  }

  /** With equal first characters, `a` is a proper prefix of `b` exactly when its tail is of `b`'s tail. */
  lemma PrefixAfterHead(a: string, b: string)
    requires |a| > 0 && |b| > 0 && a[0] == b[0]
    ensures ProperPrefix(a, b) <==> ProperPrefix(a[1..], b[1..])
  {
    if |a| < |b| {
      assert a == [a[0]] + a[1..];
      assert b[..|a|] == [b[0]] + b[1..][..|a| - 1];
    }
  }

  /** With equal first characters, the first difference of the strings is one past that of their tails. */
  lemma SmallerAfterHead(a: string, b: string)
    requires |a| > 0 && |b| > 0 && a[0] == b[0]
    ensures (exists k :: SmallerAt(a, b, k)) <==> (exists k :: SmallerAt(a[1..], b[1..], k))
  {
    var a', b' := a[1..], b[1..];
    if k :| SmallerAt(a, b, k) {
      assert k > 0;
      assert a[..k] == [a[0]] + a'[..k - 1] && b[..k] == [b[0]] + b'[..k - 1];
      assert SmallerAt(a', b', k - 1);
    }
    if k :| SmallerAt(a', b', k) {
      assert a[..k + 1] == [a[0]] + a'[..k] && b[..k + 1] == [b[0]] + b'[..k];
      assert SmallerAt(a, b, k + 1);
    }
  }

  /** `a <= b` on Python strings. */
  predicate LessEq(a: string, b: string) {
    a == b || Less(a, b)
  }

  lemma {:induction false} LessIrreflexive(a: string)
    ensures !Less(a, a)
  {
    if |a| > 0 {
      LessIrreflexive(a[1..]);
    }
  }

  lemma {:induction false} LessTransitive(a: string, b: string, c: string)
    requires Less(a, b) && Less(b, c)
    ensures Less(a, c)
  {
    if |a| > 0 && a[0] == b[0] && b[0] == c[0] {
      LessTransitive(a[1..], b[1..], c[1..]);
    }
  }

  lemma {:induction false} LessTotal(a: string, b: string)
    ensures a == b || Less(a, b) || Less(b, a)
  {
    if |a| > 0 && |b| > 0 && a[0] == b[0] {
      LessTotal(a[1..], b[1..]);
      if a[1..] == b[1..] {
        assert a == [a[0]] + a[1..] && b == [b[0]] + b[1..];
      }
    }
  }

  lemma LessAsymmetric(a: string, b: string)
    requires Less(a, b)
    ensures !Less(b, a) && a != b
  {
    LessIrreflexive(a);
    if Less(b, a) {
      LessTransitive(a, b, a);
    }
  }

  lemma LessEqTransitive(a: string, b: string, c: string)
    requires LessEq(a, b) && LessEq(b, c)
    ensures LessEq(a, c)
  {
    if a != b && b != c {
      LessTransitive(a, b, c);
    }
  }

  /** Non-decreasing: what `sorted` returns for a list that may repeat names. */
  ghost predicate Sorted(s: seq<string>) {
    forall i, j :: 0 <= i < j < |s| ==> LessEq(s[i], s[j])
  }

  /** Increasing: what `sorted(list(s))` returns for a set `s`. */
  ghost predicate StrictlySorted(s: seq<string>) {
    forall i, j :: 0 <= i < j < |s| ==> Less(s[i], s[j])
  }

  /** The members of a list, i.e. Python's `set(s)`. */
  function Elems(s: seq<string>): set<string> {
    set x | x in s
  }

  /** Inserts `x` in front of the first element it does not exceed. */
  function Insert(x: string, s: seq<string>): (r: seq<string>)
    ensures multiset(r) == multiset(s) + multiset{x}
  {
    if s == [] then [x]
    else if LessEq(x, s[0]) then [x] + s
    else
      assert s == [s[0]] + s[1..];
      [s[0]] + Insert(x, s[1..])
  }

  /**
   * The model of `sorted(s)` on a list of strings: an ordered list holding
   * exactly the elements of `s`, repetitions kept.
   */
  function Sort(s: seq<string>): (r: seq<string>)
    ensures Sorted(r)
    ensures multiset(r) == multiset(s)
  {
    if s == [] then []
    else
      var t := Sort(s[1..]);
      InsertSorted(s[0], t);
      assert s == [s[0]] + s[1..];
      Insert(s[0], t)
  }

  lemma {:induction false} InsertSorted(x: string, s: seq<string>)
    requires Sorted(s)
    ensures Sorted(Insert(x, s))
  {
    if s != [] {
      var r := Insert(x, s);
      if LessEq(x, s[0]) {
        forall j | 0 < j < |r| ensures LessEq(r[0], r[j]) {
          LessEqTransitive(x, s[0], r[j]);
        }
      } else {
        LessTotal(x, s[0]);
        var t := Insert(x, s[1..]);
        InsertSorted(x, s[1..]);
        assert r == [s[0]] + t;
        forall j | 0 < j < |r| ensures LessEq(r[0], r[j]) {
          assert r[j] in multiset(t);
          assert r[j] == x || r[j] in s[1..];
        }
      }
    }
  }

  lemma {:induction false} InsertStrictlySorted(x: string, s: seq<string>)
    requires StrictlySorted(s) && x !in s
    ensures StrictlySorted(Insert(x, s))
    ensures Elems(Insert(x, s)) == Elems(s) + {x}
  {
    InsertElems(x, s);
    if s != [] {
      if LessEq(x, s[0]) {
        HeadBelowTail(s);
        forall y | y in s ensures Less(x, y) {
          if y != s[0] {
            LessTransitive(x, s[0], y);
          }
        }
        ConsStrictlySorted(x, s);
      } else {
        LessTotal(x, s[0]);
        InsertStrictlySorted(x, s[1..]);
        HeadBelowTail(s);
        var t := Insert(x, s[1..]);
        assert forall y :: y in t ==> y in Elems(t);
        ConsStrictlySorted(s[0], t);
      }
    }
  }

  /** Inserting adds exactly `x` to the members. */
  lemma InsertElems(x: string, s: seq<string>)
    ensures Elems(Insert(x, s)) == Elems(s) + {x}
  {
    var r := Insert(x, s);
    forall y ensures y in r <==> y in s || y == x {
      assert y in r <==> y in multiset(r);
      assert y in s <==> y in multiset(s);
    }
  }

  /** The head of a strictly sorted list is below each later element. */
  lemma HeadBelowTail(s: seq<string>)
    requires StrictlySorted(s) && s != []
    ensures StrictlySorted(s[1..])
    ensures forall y :: y in s[1..] ==> Less(s[0], y)
  {
    forall y | y in s[1..] ensures Less(s[0], y) {
      var k :| 0 <= k < |s[1..]| && s[1..][k] == y;
      assert s[k + 1] == y;
    }
  }

  /** A new head below every element keeps a list strictly sorted. */
  lemma ConsStrictlySorted(h: string, t: seq<string>)
    requires StrictlySorted(t) && forall y :: y in t ==> Less(h, y)
    ensures StrictlySorted([h] + t)
  {
    var r := [h] + t;
    forall i, j | 0 <= i < j < |r| ensures Less(r[i], r[j]) {
      assert r[j] == t[j - 1];
      if i > 0 {
        assert r[i] == t[i - 1];
      }
    }
  }

  /**
   * A sorted list is determined by its elements: any two orderings of the
   * same multiset that are both non-decreasing are equal, so the insertion
   * sort gives what `sorted` gives.
   */
  lemma {:induction false} SortedUnique(a: seq<string>, b: seq<string>)
    requires Sorted(a) && Sorted(b) && multiset(a) == multiset(b)
    ensures a == b
  {
    if a != [] && b != [] {
      assert a[0] in multiset(b) && b[0] in multiset(a);
      SortedHeadLeast(b, a[0]);
      SortedHeadLeast(a, b[0]);
      if a[0] != b[0] {
        LessAsymmetric(a[0], b[0]);
      }
      MultisetTail(a);
      MultisetTail(b);
      SortedTail(a);
      SortedTail(b);
      SortedUnique(a[1..], b[1..]);
    }
  }

  /** The head of a sorted list is at most each of its elements. */
  lemma SortedHeadLeast(s: seq<string>, x: string)
    requires Sorted(s) && x in s
    ensures LessEq(s[0], x)
  {
    var i :| 0 <= i < |s| && s[i] == x;
  }

  /** Dropping the head removes one occurrence of it. */
  lemma MultisetTail(s: seq<string>)
    requires s != []
    ensures multiset(s[1..]) == multiset(s) - multiset{s[0]}
  {
    assert s == [s[0]] + s[1..];
  }

  /** Dropping the head keeps a list sorted. */
  lemma SortedTail(s: seq<string>)
    requires Sorted(s) && s != []
    ensures Sorted(s[1..])
  {
    assert forall i, j :: 0 <= i < j < |s| - 1 ==> s[1..][i] == s[i + 1] && s[1..][j] == s[j + 1];
  }

  lemma ElemsEmpty(s: seq<string>)
    ensures Elems(s) == {} <==> s == []
  {
    if s != [] {
      assert s[0] in Elems(s);
    }
  }

  /**
   * A strictly sorted list is determined by its members: `sorted(list(s))` does
   * not depend on the order in which `list` enumerates the set.
   */
  lemma {:induction false} StrictlySortedUnique(a: seq<string>, b: seq<string>)
    requires StrictlySorted(a) && StrictlySorted(b) && Elems(a) == Elems(b)
    ensures a == b
  {
    ElemsEmpty(a);
    ElemsEmpty(b);
    if a != [] && b != [] {
      assert a[0] in Elems(b) && b[0] in Elems(a);
      if a[0] != b[0] {
        var i :| 0 <= i < |b| && b[i] == a[0];
        var j :| 0 <= j < |a| && a[j] == b[0];
        assert Less(b[0], a[0]) && Less(a[0], b[0]);
        LessAsymmetric(a[0], b[0]);
      }
      forall y ensures y in Elems(a[1..]) <==> y in Elems(b[1..]) {
        if y in a[1..] {
          var k :| 1 <= k < |a| && a[k] == y;
          LessAsymmetric(a[0], y);
        }
        if y in b[1..] {
          var k :| 1 <= k < |b| && b[k] == y;
          LessAsymmetric(b[0], y);
        }
        assert y in Elems(a) <==> y in Elems(b);
      }
      StrictlySortedUnique(a[1..], b[1..]);
      assert a == [a[0]] + a[1..] && b == [b[0]] + b[1..];
    }
  }

  /**
   * The model of `sorted(list(s))` for a set `s`: `list` hands out the members
   * in an order the program does not control, and each is inserted in place.
   */
  method SortedList(s: set<string>) returns (r: seq<string>)
    ensures StrictlySorted(r)
    ensures Elems(r) == s
  {
    r := [];
    var rest := s;
    while rest != {}
      invariant rest <= s
      invariant StrictlySorted(r)
      invariant Elems(r) == s - rest
      decreases rest
    {
      var x :| x in rest;
      InsertStrictlySorted(x, r);
      r := Insert(x, r);
      rest := rest - {x};
    }
  }

  /** A strictly sorted list is sorted. */
  lemma StrictlySortedIsSorted(s: seq<string>)
    requires StrictlySorted(s)
    ensures Sorted(s)
  {
  }
}
