/**
 * Ascending order on strings, as a Qt list widget sorts its items, taken as
 * lexicographic order on code points, and a sort that keeps every item.
 */
module Sorting {

  /** `a` sorts no later than `b`: `a` is a prefix of `b`, or the first differing character of `a` is smaller. */
  predicate Le(a: string, b: string)
    decreases |a|
  {
    |a| == 0 || (|b| > 0 && (a[0] < b[0] || (a[0] == b[0] && Le(a[1..], b[1..]))))
  }

  lemma {:induction false} LeTotal(a: string, b: string)
    ensures Le(a, b) || Le(b, a)
    decreases |a|
  {
    if |a| > 0 && |b| > 0 && a[0] == b[0] {
      LeTotal(a[1..], b[1..]);
    }
  }

  lemma {:induction false} LeRefl(a: string)
    ensures Le(a, a)
    decreases |a|
  {
    if |a| > 0 {
      LeRefl(a[1..]);
    }
  }

  lemma {:induction false} LeTrans(a: string, b: string, c: string)
    requires Le(a, b) && Le(b, c)
    ensures Le(a, c)
    decreases |a|
  {
    if |a| > 0 && a[0] == b[0] && b[0] == c[0] {
      LeTrans(a[1..], b[1..], c[1..]);
    }
  }

  lemma {:induction false} LeAntisym(a: string, b: string)
    requires Le(a, b) && Le(b, a)
    ensures a == b
    decreases |a|
  {
    if |a| > 0 {
      LeAntisym(a[1..], b[1..]);
      assert a == [a[0]] + a[1..] && b == [b[0]] + b[1..];
    }
  }

  predicate Sorted(s: seq<string>)
  {
    forall i, j :: 0 <= i < j < |s| ==> Le(s[i], s[j])
  }

  /** Inserts `x` before the first item that sorts after it. */
  function Insert(s: seq<string>, x: string): (r: seq<string>)
    requires Sorted(s)
    ensures Sorted(r)
    ensures multiset(r) == multiset(s) + multiset{x}
  {
    if |s| == 0 then [x]
    else if Le(x, s[0]) then
      assert forall j :: 0 < j < |s| ==> Le(x, s[j]) by {
        forall j | 0 < j < |s| ensures Le(x, s[j]) { LeTrans(x, s[0], s[j]); }
      }
      [x] + s
    else
      var t := Insert(s[1..], x);
      LeTotal(x, s[0]);
      assert forall k :: 0 <= k < |t| ==> Le(s[0], t[k]) by {
        forall k | 0 <= k < |t| ensures Le(s[0], t[k]) {
          assert t[k] in multiset(t);
          assert t[k] == x || t[k] in multiset(s[1..]);
          if t[k] != x {
            var j :| 0 <= j < |s[1..]| && s[1..][j] == t[k];
            assert s[1..][j] == s[j + 1];
          }
        }
      }
      assert s == [s[0]] + s[1..];
      [s[0]] + t
  }

  /** The whole list in ascending order, every item kept. */
  function Sort(s: seq<string>): (r: seq<string>)
    ensures Sorted(r)
    ensures multiset(r) == multiset(s)
  {
    if |s| == 0 then []
    else
      assert s == s[..|s| - 1] + [s[|s| - 1]];
      Insert(Sort(s[..|s| - 1]), s[|s| - 1])
  }

  /** Sorting an already sorted list changes nothing. */
  lemma {:induction false} SortSorted(s: seq<string>)
    requires Sorted(s)
    ensures Sort(s) == s
    decreases |s|
  {
    SortUnique(Sort(s), s);
  }

  /** Two sorted lists holding the same items are equal. */
  lemma {:induction false} SortUnique(a: seq<string>, b: seq<string>)
    requires Sorted(a) && Sorted(b) && multiset(a) == multiset(b)
    ensures a == b
    decreases |a|
  {
    assert |a| == |multiset(a)| == |multiset(b)| == |b|;
    if |a| > 0 {
      SameFirst(a, b);
      assert a == [a[0]] + a[1..] && b == [b[0]] + b[1..];
      assert multiset(a) == multiset{a[0]} + multiset(a[1..]);
      assert multiset(b) == multiset{b[0]} + multiset(b[1..]);
      forall e ensures multiset(a[1..])[e] == multiset(b[1..])[e] {
        assert multiset(a)[e] == multiset(b)[e];
      }
      assert multiset(a[1..]) == multiset(b[1..]);
      SortUnique(a[1..], b[1..]);
    }
  }

  lemma SameFirst(a: seq<string>, b: seq<string>)
    requires Sorted(a) && Sorted(b) && multiset(a) == multiset(b)
    requires |a| > 0 && |b| > 0
    ensures a[0] == b[0]
  {
    assert a[0] in multiset(b) && b[0] in multiset(a);
    var i :| 0 <= i < |b| && b[i] == a[0];
    var j :| 0 <= j < |a| && a[j] == b[0];
    if i == 0 { LeRefl(b[0]); }
    if j == 0 { LeRefl(a[0]); }
    LeAntisym(a[0], b[0]);
  }
}
