/**
 * The Python string operations the application relies on, with Python's
 * semantics: `p in s`, `s.replace(p, r)`, `s.strip()`, `s.rfind(c)`,
 * slicing with negative bounds, `s.split(c)` and `c.join(parts)`, `str(n)`.
 */
module Strings {

  /** `p` occurs in `s` starting at index `i`. */
  predicate MatchAt(s: string, p: string, i: nat)
  {
    i + |p| <= |s| && s[i..i + |p|] == p
  }

  /** Python's `p in s`. */
  predicate Contains(s: string, p: string)
    decreases |s|
  {
    |p| <= |s| && (s[..|p|] == p || (|s| > 0 && Contains(s[1..], p)))
  }

  lemma {:induction false} ContainsIffMatch(s: string, p: string)
    ensures Contains(s, p) <==> exists i: nat :: MatchAt(s, p, i)
    decreases |s|
  {
    if Contains(s, p) {
      if s[..|p|] == p {
        assert MatchAt(s, p, 0);
      } else {
        ContainsIffMatch(s[1..], p);
        var i: nat :| MatchAt(s[1..], p, i);
        assert s[1..][i..i + |p|] == s[i + 1..i + 1 + |p|];
        assert MatchAt(s, p, i + 1);
      }
    }
    if i: nat :| MatchAt(s, p, i) {
      if i == 0 {
        assert s[..|p|] == p;
      } else {
        assert s[1..][i - 1..i - 1 + |p|] == s[i..i + |p|];
        assert MatchAt(s[1..], p, i - 1);
        ContainsIffMatch(s[1..], p);
      }
    }
  }

  /** Text without the first character of a pattern does not contain it. */
  lemma AbsentFirst(s: string, p: string)
    requires |p| > 0 && p[0] !in s
    ensures !Contains(s, p)
  {
    forall i: nat
      ensures !MatchAt(s, p, i)
    {
      if i + |p| <= |s| {
        assert s[i..i + |p|][0] == s[i];
      }
    }
    ContainsIffMatch(s, p);
  }

  /** Python's `s.replace(p, r)` for a non-empty `p`: one left-to-right pass over non-overlapping occurrences. */
  function ReplaceAll(s: string, p: string, r: string): string
    requires |p| > 0
    decreases |s|
  {
    if |s| < |p| then s
    else if s[..|p|] == p then r + ReplaceAll(s[|p|..], p, r)
    else [s[0]] + ReplaceAll(s[1..], p, r)
  }

  /** A string in which `p` does not occur is left unchanged. */
  lemma {:induction false} ReplaceAbsent(s: string, p: string, r: string)
    requires |p| > 0
    requires !Contains(s, p)
    ensures ReplaceAll(s, p, r) == s
    decreases |s|
  {
    if |s| >= |p| {
      ReplaceAbsent(s[1..], p, r);
      assert [s[0]] + s[1..] == s;
    }
  }

  /** When no occurrence of `p` starts inside `l`, the pass copies `l` and continues on `t`. */
  lemma {:induction false} ReplaceSkips(l: string, t: string, p: string, r: string)
    requires |p| > 0
    requires forall i: nat :: i < |l| ==> !MatchAt(l + t, p, i)
    ensures ReplaceAll(l + t, p, r) == l + ReplaceAll(t, p, r)
    decreases |l|
  {
    if |l| > 0 {
      var s := l + t;
      assert !MatchAt(s, p, 0);
      assert s[1..] == l[1..] + t;
      forall i: nat | i < |l[1..]|
        ensures !MatchAt(l[1..] + t, p, i)
      {
        assert !MatchAt(s, p, i + 1);
        if i + |p| <= |s[1..]| {
          assert s[1..][i..i + |p|] == s[i + 1..i + 1 + |p|];
        }
      }
      ReplaceSkips(l[1..], t, p, r);
      if |s| >= |p| {
        assert s[..|p|] != p;
        calc {
          ReplaceAll(s, p, r);
          [s[0]] + ReplaceAll(s[1..], p, r);
          [l[0]] + (l[1..] + ReplaceAll(t, p, r));
          ([l[0]] + l[1..]) + ReplaceAll(t, p, r);
          { assert [l[0]] + l[1..] == l; }
          l + ReplaceAll(t, p, r);
        }
      } else {
        assert ReplaceAll(t, p, r) == t;
      }
    } else {
      assert l + t == t;
    }
  }

  /** An occurrence at the front is replaced and the pass resumes after it. */
  lemma ReplaceFront(p: string, t: string, r: string)
    requires |p| > 0
    ensures ReplaceAll(p + t, p, r) == r + ReplaceAll(t, p, r)
  {
    assert (p + t)[..|p|] == p;
    assert (p + t)[|p|..] == t;
  }

  /** Python's `str.isspace()` for one character: the Unicode characters Python treats as whitespace. */
  predicate IsSpace(c: char)
  {
    c == ' ' || ('\t' <= c <= '\r') || ('\U{1c}' <= c <= '\U{1f}') || c == '\U{85}' || c == '\U{a0}'
    || c == '\U{1680}' || ('\U{2000}' <= c <= '\U{200a}') || c == '\U{2028}' || c == '\U{2029}'
    || c == '\U{202f}' || c == '\U{205f}' || c == '\U{3000}'
  }

  function LStrip(s: string): (r: string)
    ensures |r| <= |s| && r == s[|s| - |r|..]
    ensures |r| > 0 ==> !IsSpace(r[0])
    ensures forall k :: 0 <= k < |s| - |r| ==> IsSpace(s[k])
  {
    if |s| > 0 && IsSpace(s[0]) then LStrip(s[1..]) else s
  }

  function RStrip(s: string): (r: string)
    ensures |r| <= |s| && r == s[..|r|]
    ensures |r| > 0 ==> !IsSpace(r[|r| - 1])
    ensures forall k :: |r| <= k < |s| ==> IsSpace(s[k])
  {
    if |s| > 0 && IsSpace(s[|s| - 1]) then RStrip(s[..|s| - 1]) else s
  }

  /** `r` is `s` with `i` whitespace characters cut from the front and the rest of the cut from the back. */
  predicate TrimmedAt(s: string, r: string, i: nat)
  {
    i + |r| <= |s| && s[i..i + |r|] == r
    && (forall k :: 0 <= k < i ==> IsSpace(s[k]))
    && (forall k :: i + |r| <= k < |s| ==> IsSpace(s[k]))
  }

  /** Python's `s.strip()`: the result is an infix of `s` with every character cut away a whitespace character. */
  function Strip(s: string): (r: string)
    ensures |r| > 0 ==> !IsSpace(r[0]) && !IsSpace(r[|r| - 1])
    ensures TrimmedAt(s, r, |s| - |LStrip(s)|)
  {
    var l := LStrip(s);
    var r := RStrip(l);
    TrimCompose(s, l, r);
    r
  }

  /** Cutting white space from the front, then from the back, leaves an infix cut by white space only. */
  lemma TrimCompose(s: string, l: string, r: string)
    requires |l| <= |s| && l == s[|s| - |l|..] && forall k :: 0 <= k < |s| - |l| ==> IsSpace(s[k])
    requires |r| <= |l| && r == l[..|r|] && forall k :: |r| <= k < |l| ==> IsSpace(l[k])
    ensures TrimmedAt(s, r, |s| - |l|)
  {
    var i := |s| - |l|;
    forall k | i + |r| <= k < |s|
      ensures IsSpace(s[k])
    {
      assert s[k] == l[k - i];
    }
  }

  /** Stripping never brings in a character. */
  lemma StripDrops(s: string, c: char)
    requires c !in s
    ensures c !in Strip(s)
  {
    var r := Strip(s);
    var i := |s| - |LStrip(s)|;
    forall k | 0 <= k < |r|
      ensures r[k] != c
    {
      assert r[k] == s[i..i + |r|][k] == s[i + k];
    }
  }

  /** Stripping a string whose last character is not whitespace only cuts a prefix. */
  lemma StripKeepsSuffix(t: string, u: string)
    requires |u| > 0 && !IsSpace(u[0]) && !IsSpace(u[|u| - 1])
    ensures exists q: string :: Strip(t + u) == q + u
  {
    var s := t + u;
    var l := LStrip(s);
    StripFrontKeepsTail(t, u);
    var q: string :| l == q + u;
    assert RStrip(l) == l;
    assert Strip(s) == q + u;
  }

  lemma {:induction false} StripFrontKeepsTail(t: string, u: string)
    requires |u| > 0 && !IsSpace(u[0])
    ensures exists q: string :: LStrip(t + u) == q + u
    decreases |t|
  {
    if |t| == 0 {
      assert t + u == u;
      assert LStrip(u) == [] + u;
    } else if IsSpace(t[0]) {
      assert (t + u)[1..] == t[1..] + u;
      StripFrontKeepsTail(t[1..], u);
    } else {
      assert LStrip(t + u) == t + u;
    }
  }

  /** The index of the first character of `s` that is in `stops`, or `|s|`. */
  function FirstOf(s: string, stops: set<char>): (r: nat)
    ensures r <= |s|
    ensures forall k :: 0 <= k < r ==> s[k] !in stops
    ensures r < |s| ==> s[r] in stops
  {
    if |s| == 0 || s[0] in stops then 0 else 1 + FirstOf(s[1..], stops)
  }

  lemma {:induction false} FirstOfAbsent(s: string, stops: set<char>)
    requires forall k :: 0 <= k < |s| ==> s[k] !in stops
    ensures FirstOf(s, stops) == |s|
    decreases |s|
  {
    if |s| > 0 {
      FirstOfAbsent(s[1..], stops);
    }
  }

  lemma {:induction false} FirstOfAfter(a: string, b: string, stops: set<char>)
    requires forall k :: 0 <= k < |a| ==> a[k] !in stops
    ensures FirstOf(a + b, stops) == |a| + FirstOf(b, stops)
    decreases |a|
  {
    if |a| > 0 {
      assert (a + b)[1..] == a[1..] + b;
      FirstOfAfter(a[1..], b, stops);
    } else {
      assert a + b == b;
    }
  }

  /** Python's `s.rfind(c)` for one character: the last index of `c`, or -1. */
  function RFind(s: string, c: char): (r: int)
    ensures -1 <= r < |s|
    ensures r >= 0 ==> s[r] == c
    ensures forall k :: r < k < |s| ==> s[k] != c
  {
    if |s| == 0 then -1
    else if s[|s| - 1] == c then |s| - 1
    else RFind(s[..|s| - 1], c)
  }

  /** Python's normalisation of a slice bound `i` against a length `n`. */
  function SliceBound(i: int, n: nat): (r: nat)
    ensures r <= n
  {
    if i < 0 then (if i + n < 0 then 0 else i + n) else if i > n then n else i
  }

  /** Python's `s[a:b]`, negative bounds counting from the end. */
  function PySlice(s: string, a: int, b: int): string
  {
    var x := SliceBound(a, |s|);
    var y := SliceBound(b, |s|);
    if x < y then s[x..y] else []
  }

  /** Python's `s.split(c)` for a one-character separator. */
  function Split(s: string, c: char): (r: seq<string>)
    ensures |r| >= 1
    ensures forall k :: 0 <= k < |r| ==> c !in r[k]
    decreases |s|
  {
    if |s| == 0 then [""]
    else
      var rest := Split(s[1..], c);
      if s[0] == c then [""] + rest else [[s[0]] + rest[0]] + rest[1..]
  }

  /** Python's `c.join(parts)` for a one-character separator. */
  function Join(parts: seq<string>, c: char): string
  {
    if |parts| == 0 then ""
    else if |parts| == 1 then parts[0]
    else parts[0] + [c] + Join(parts[1..], c)
  }

  lemma {:induction false} SplitJoin(s: string, c: char)
    ensures Join(Split(s, c), c) == s
    decreases |s|
  {
    if |s| > 0 {
      var rest := Split(s[1..], c);
      SplitJoin(s[1..], c);
      if s[0] == c {
        assert Join([""] + rest, c) == "" + [c] + Join(rest, c);
      } else {
        var r := [[s[0]] + rest[0]] + rest[1..];
        if |rest| == 1 {
          assert Join(r, c) == [s[0]] + rest[0];
        } else {
          assert rest == [rest[0]] + rest[1..];
          assert Join(rest, c) == rest[0] + [c] + Join(rest[1..], c);
          assert r[1..] == rest[1..];
        }
      }
      assert [s[0]] + s[1..] == s;
    }
  }

  lemma {:induction false} JoinSplit(parts: seq<string>, c: char)
    requires |parts| >= 1
    requires forall k :: 0 <= k < |parts| ==> c !in parts[k]
    ensures Split(Join(parts, c), c) == parts
    decreases parts
  {
    if |parts| == 1 {
      NoSeparatorSplit(parts[0], c);
    } else {
      JoinSplit(parts[1..], c);
      SplitConcat(parts[0], Join(parts[1..], c), c);
      assert [parts[0]] + parts[1..] == parts;
    }
  }

  lemma {:induction false} NoSeparatorSplit(s: string, c: char)
    requires c !in s
    ensures Split(s, c) == [s]
    decreases |s|
  {
    if |s| > 0 {
      NoSeparatorSplit(s[1..], c);
      assert [s[0]] + s[1..] == s;
    }
  }

  /** Splitting `a + c + b` where `a` holds no separator yields `a` followed by the split of `b`. */
  lemma {:induction false} SplitConcat(a: string, b: string, c: char)
    requires c !in a
    ensures Split(a + [c] + b, c) == [a] + Split(b, c)
    decreases |a|
  {
    if |a| == 0 {
      assert a + [c] + b == [c] + b;
      assert ([c] + b)[1..] == b;
    } else {
      var s := a + [c] + b;
      assert s[1..] == a[1..] + [c] + b;
      SplitConcat(a[1..], b, c);
      assert [a[0]] + a[1..] == a;
    }
  }

  /** `last` is a suffix of `s` that is either all of `s` or preceded by `c`. */
  predicate EndSegment(s: string, last: string, c: char)
  {
    |last| <= |s| && s[|s| - |last|..] == last && (|last| < |s| ==> s[|s| - |last| - 1] == c)
  }

  /** A segment ending the tail of `s` also ends `s`, unless it is the whole tail and `s` starts with another character. */
  lemma EndSegmentFront(s: string, last: string, c: char)
    requires |s| > 0 && EndSegment(s[1..], last, c)
    requires |last| < |s| - 1 || s[0] == c
    ensures EndSegment(s, last, c) && |last| < |s|
  {
    var t := s[1..];
    assert s[|s| - |last|..] == t[|t| - |last|..];
    if |last| < |t| {
      assert s[|s| - |last| - 1] == t[|t| - |last| - 1];
    }
  }

  /** How the first character of `s` changes the last element of `s.split(c)` and the number of parts. */
  lemma SplitLast(s: string, c: char)
    requires |s| > 0
    ensures var parts := Split(s, c); var rest := Split(s[1..], c);
            if s[0] == c || |rest| > 1 then |parts| > 1 && parts[|parts| - 1] == rest[|rest| - 1]
            else |parts| == 1 && parts[0] == [s[0]] + rest[0]
  {
  }

  /** The last element of `s.split(c)` is a suffix of `s` that is either all of `s` or preceded by `c`. */
  lemma {:induction false} LastSegment(s: string, c: char)
    ensures var parts := Split(s, c); EndSegment(s, parts[|parts| - 1], c) && (|parts| > 1 ==> |parts[|parts| - 1]| < |s|)
    decreases |s|
  {
    if |s| > 0 {
      var t := s[1..];
      LastSegment(t, c);
      SplitLast(s, c);
      var rest := Split(t, c);
      if s[0] == c || |rest| > 1 {
        EndSegmentFront(s, rest[|rest| - 1], c);
      } else {
        SplitJoin(t, c);
        assert [s[0]] + t == s;
      }
    }
  }

  /** ASCII lower-casing of one character. */
  function LowerChar(c: char): char
  {
    if 'A' <= c <= 'Z' then (c as int + 32) as char else c
  }

  /** Python's `s.lower()` restricted to the ASCII letters; also the case folding used for case-insensitive matching. */
  function Lower(s: string): (r: string)
    ensures |r| == |s| && forall k :: 0 <= k < |s| ==> r[k] == LowerChar(s[k])
  {
    seq(|s|, k requires 0 <= k < |s| => LowerChar(s[k]))
  }

  /** Python's `str(n)` for a natural number. */
  function NatToString(n: nat): (r: string)
    ensures |r| > 0 && forall k :: 0 <= k < |r| ==> '0' <= r[k] <= '9'
    decreases n
  {
    if n < 10 then [('0' as int + n) as char]
    else NatToString(n / 10) + [('0' as int + n % 10) as char]
  }

  /** Python's `int(s)` for a string of decimal digits. */
  function DigitsValue(s: string): nat
    requires forall k :: 0 <= k < |s| ==> '0' <= s[k] <= '9'
  {
    if |s| == 0 then 0 else DigitsValue(s[..|s| - 1]) * 10 + (s[|s| - 1] as int - '0' as int)
  }

  /** `int(str(n)) == n`. */
  lemma {:induction false} NatToStringRoundTrip(n: nat)
    ensures DigitsValue(NatToString(n)) == n
    decreases n
  {
    if n >= 10 {
      NatToStringRoundTrip(n / 10);
      var s := NatToString(n);
      assert s[..|s| - 1] == NatToString(n / 10);
    }
  }

  /** `os.path.join(a, b)` on POSIX for two parts: an absolute `b` wins, otherwise one `/` between them. */
  function PathJoin(a: string, b: string): (r: string)
    ensures |b| > 0 && b[0] == '/' ==> r == b
    ensures !(|b| > 0 && b[0] == '/') && |a| > 0 && a[|a| - 1] != '/' ==> r == a + "/" + b
  {
    if |b| > 0 && b[0] == '/' then b
    else if |a| == 0 || a[|a| - 1] == '/' then a + b
    else a + "/" + b
  }

  /** The joined path ends with its second part. */
  lemma PathJoinSuffix(a: string, b: string)
    ensures var r := PathJoin(a, b); |b| <= |r| && r[|r| - |b|..] == b
  {
  }
}
