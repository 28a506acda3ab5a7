// The order JavaScript's Array.prototype.sort() uses when no comparator is
// given: strings compared character by character, a proper prefix first.

module LexOrder {

  /** a sorts no later than b. */
  predicate LexLeq(a: string, b: string)
  {
    if a == [] then true
    else if b == [] then false
    else if a[0] != b[0] then a[0] < b[0]
    else LexLeq(a[1..], b[1..])
  }

  lemma {:induction false} LexLeqReflexive(a: string)
    ensures LexLeq(a, a)
  {
    if a != [] { LexLeqReflexive(a[1..]); }
  }

  lemma {:induction false} LexLeqTotal(a: string, b: string)
    ensures LexLeq(a, b) || LexLeq(b, a)
  {
    if a != [] && b != [] && a[0] == b[0] { LexLeqTotal(a[1..], b[1..]); }
  }

  lemma {:induction false} LexLeqAntisymmetric(a: string, b: string)
    requires LexLeq(a, b) && LexLeq(b, a)
    ensures a == b
  {
    if a != [] && b != [] {
      LexLeqAntisymmetric(a[1..], b[1..]);
      assert a == [a[0]] + a[1..] && b == [b[0]] + b[1..];
    }
  }

  lemma {:induction false} LexLeqTransitive(a: string, b: string, c: string)
    requires LexLeq(a, b) && LexLeq(b, c)
    ensures LexLeq(a, c)
  {
    if a != [] && b != [] && c != [] && a[0] == b[0] && b[0] == c[0] {
      LexLeqTransitive(a[1..], b[1..], c[1..]);
    }
  }

  /** Comparing two strings that share a prefix of equal length compares what follows it. */
  lemma {:induction false} LexLeqCommonPrefix(p: string, a: string, b: string)
    ensures LexLeq(p + a, p + b) <==> LexLeq(a, b)
  {
    if p != [] {
      assert (p + a)[1..] == p[1..] + a && (p + b)[1..] == p[1..] + b;
      LexLeqCommonPrefix(p[1..], a, b);
    } else {
      assert p + a == a && p + b == b;
    }
  }

  /** For two strings of the same length that differ, the first difference decides,
      whatever follows. */
  lemma {:induction false} LexLeqDifferentPrefix(p: string, q: string, a: string, b: string)
    requires |p| == |q| && p != q
    ensures LexLeq(p + a, q + b) <==> LexLeq(p, q)
  {
    assert p != [] && q != [];
    assert (p + a)[0] == p[0] && (q + b)[0] == q[0];
    if p[0] == q[0] {
      assert p[1..] != q[1..] by { assert p == [p[0]] + p[1..] && q == [q[0]] + q[1..]; }
      assert (p + a)[1..] == p[1..] + a && (q + b)[1..] == q[1..] + b;
      LexLeqDifferentPrefix(p[1..], q[1..], a, b);
    }
  }

  ghost predicate Sorted(s: seq<string>)
  {
    forall i, j :: 0 <= i < j < |s| ==> LexLeq(s[i], s[j])
  }

  function Insert(x: string, s: seq<string>): (r: seq<string>)
    requires Sorted(s)
    ensures Sorted(r) && multiset(r) == multiset(s) + multiset{x}
  {
    if s == [] then [x]
    else if LexLeq(x, s[0]) then
      InsertFrontSorted(x, s);
      [x] + s
    else
      LexLeqTotal(x, s[0]);
      var t := Insert(x, s[1..]);
      assert s == [s[0]] + s[1..];
      InsertAfterHeadSorted(s[0], x, s[1..], t);
      [s[0]] + t
  }

  lemma InsertFrontSorted(x: string, s: seq<string>)
    requires Sorted(s) && s != [] && LexLeq(x, s[0])
    ensures Sorted([x] + s)
  {
    forall i, j | 0 <= i < j < |s| + 1 ensures LexLeq(([x] + s)[i], ([x] + s)[j]) {
      if i == 0 && j > 1 { LexLeqTransitive(x, s[0], s[j - 1]); }
      else if i == 0 { }
    }
  }

  lemma InsertAfterHeadSorted(h: string, x: string, rest: seq<string>, t: seq<string>)
    requires Sorted([h] + rest) && LexLeq(h, x)
    requires Sorted(t) && multiset(t) == multiset(rest) + multiset{x}
    ensures Sorted([h] + t)
  {
    forall k | 0 <= k < |t| ensures LexLeq(h, t[k]) {
      assert t[k] in multiset(t);
      if t[k] != x {
        assert t[k] in multiset(rest);
        assert t[k] in rest;
        var m :| 0 <= m < |rest| && rest[m] == t[k];
        assert ([h] + rest)[0] == h && ([h] + rest)[m + 1] == rest[m];
      }
    }
    forall i, j | 0 <= i < j < |t| + 1 ensures LexLeq(([h] + t)[i], ([h] + t)[j]) {
      if i == 0 { assert ([h] + t)[j] == t[j - 1]; }
    }
  }

  /** `keys.slice().sort()`: a sorted copy, here by insertion. */
  function Sort(s: seq<string>): (r: seq<string>)
    ensures Sorted(r) && multiset(r) == multiset(s) && |r| == |s|
  {
    if s == [] then [] else
      assert s == [s[0]] + s[1..];
      Insert(s[0], Sort(s[1..]))
  }

  /** Any two sorted arrangements of the same strings are the same sequence, so the
      result does not depend on which sorting algorithm the engine uses. */
  lemma {:induction false} SortedUnique(a: seq<string>, b: seq<string>)
    requires Sorted(a) && Sorted(b) && multiset(a) == multiset(b)
    ensures a == b
  {
    if a != [] {
      assert |b| == |a| by { assert |multiset(a)| == |multiset(b)|; }
      SortedHeadsAgree(a, b);
      DropHead(a);
      DropHead(b);
      SortedUnique(a[1..], b[1..]);
      assert a == [a[0]] + a[1..] && b == [b[0]] + b[1..];
    }
  }

  lemma SortedHeadsAgree(a: seq<string>, b: seq<string>)
    requires Sorted(a) && Sorted(b) && multiset(a) == multiset(b) && a != [] && b != []
    ensures a[0] == b[0]
  {
    assert a[0] in multiset(b) && b[0] in multiset(a);
    SortedFirstIsLeast(a, b[0]);
    SortedFirstIsLeast(b, a[0]);
    LexLeqAntisymmetric(a[0], b[0]);
  }

  lemma DropHead(a: seq<string>)
    requires Sorted(a) && a != []
    ensures Sorted(a[1..]) && multiset(a[1..]) == multiset(a) - multiset{a[0]}
  {
    assert a == [a[0]] + a[1..];
    assert multiset(a) == multiset{a[0]} + multiset(a[1..]);
  }

  /** The first element of a sorted arrangement sorts no later than any element. */
  lemma SortedFirstIsLeast(s: seq<string>, x: string)
    requires Sorted(s) && x in s
    ensures LexLeq(s[0], x)
  {
    var i :| 0 <= i < |s| && s[i] == x;
    if i == 0 { LexLeqReflexive(x); }
  }

  /** The last element of a sorted arrangement sorts no earlier than any element. */
  lemma SortedLastIsGreatest(s: seq<string>, x: string)
    requires Sorted(s) && x in s
    ensures LexLeq(x, s[|s| - 1])
  {
    var i :| 0 <= i < |s| && s[i] == x;
    if i == |s| - 1 { LexLeqReflexive(x); }
  }
}
