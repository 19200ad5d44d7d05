/** The order of the port list (`refreshPorts`): the names of the available
    serial ports, sorted and then reversed, so the combo box lists them from
    the greatest name down. Port enumeration itself is an input. */
module Ports {

  /** Python's `<` on `str`: lexicographic by code point, a proper prefix first. */
  predicate Less(a: string, b: string)
    decreases |a|
  {
    if |a| == 0 then |b| > 0
    else if |b| == 0 then false
    else if a[0] != b[0] then a[0] < b[0]
    else Less(a[1..], b[1..])
  }

  lemma {:induction false} LessIrreflexive(a: string)
    ensures !Less(a, a)
    decreases |a|
  {
    if |a| > 0 {
      LessIrreflexive(a[1..]);
    }
  }

  lemma {:induction false} LessAsymmetric(a: string, b: string)
    ensures Less(a, b) ==> !Less(b, a)
    decreases |a|
  {
    if |a| > 0 && |b| > 0 && a[0] == b[0] {
      LessAsymmetric(a[1..], b[1..]);
    }
  }

  /** Two different names are always ordered one way or the other. */
  lemma {:induction false} LessTotal(a: string, b: string)
    ensures a == b || Less(a, b) || Less(b, a)
    decreases |a|
  {
    if |a| > 0 && |b| > 0 && a[0] == b[0] {
      LessTotal(a[1..], b[1..]);
      if a[1..] == b[1..] {
        assert a == [a[0]] + a[1..] && b == [b[0]] + b[1..];
      }
    }
  }

  lemma {:induction false} LessTransitive(a: string, b: string, c: string)
    requires Less(a, b) && Less(b, c)
    ensures Less(a, c)
    decreases |a|
  {
    if |a| > 0 && a[0] == b[0] && b[0] == c[0] {
      LessTransitive(a[1..], b[1..], c[1..]);
    }
  }

  /** `a >= b` in Python's order. */
  predicate AtLeast(a: string, b: string) {
    !Less(a, b)
  }

  lemma AtLeastTransitive(a: string, b: string, c: string)
    requires AtLeast(a, b) && AtLeast(b, c)
    ensures AtLeast(a, c)
  {
    if Less(a, c) {
      LessTotal(a, b);
      LessTotal(b, c);
      if Less(b, a) {
        LessTransitive(b, a, c);
      }
    }
  }

  /** Each name is at least the one after it. */
  predicate Descending(s: seq<string>) {
    forall i :: 0 <= i < |s| - 1 ==> AtLeast(s[i], s[i + 1])
  }

  /** Puts `x` into a descending list, before the first name not greater than it. */
  function Insert(x: string, s: seq<string>): (r: seq<string>)
    requires Descending(s)
    ensures Descending(r)
    ensures multiset(r) == multiset(s) + multiset{x}
    ensures r[0] == x || (|s| > 0 && r[0] == s[0])
  {
    if |s| == 0 || AtLeast(x, s[0]) then
      [x] + s
    else
      var rest := Insert(x, s[1..]);
      LessTotal(x, s[0]);
      LessAsymmetric(s[0], x);
      assert s == [s[0]] + s[1..];
      [s[0]] + rest
  }

  /** `reversed(sorted(names))`. */
  function ReverseSorted(names: seq<string>): (r: seq<string>)
    ensures Descending(r)
    ensures multiset(r) == multiset(names)
  {
    if |names| == 0 then []
    else
      assert names == [names[0]] + names[1..];
      Insert(names[0], ReverseSorted(names[1..]))
  }

  /** The head of a descending list is at least every name in it. */
  lemma {:induction false} HeadIsGreatest(s: seq<string>, x: string)
    requires Descending(s) && x in s
    ensures AtLeast(s[0], x)
  {
    if x == s[0] {
      LessIrreflexive(x);
    } else {
      assert x in s[1..];
      HeadIsGreatest(s[1..], x);
      AtLeastTransitive(s[0], s[1], x);
    }
  }

  lemma DescendingTail(s: seq<string>)
    requires Descending(s) && |s| > 0
    ensures Descending(s[1..])
  {
    forall i | 0 <= i < |s| - 2
      ensures AtLeast(s[1..][i], s[1..][i + 1])
    {
      assert s[1..][i] == s[i + 1] && s[1..][i + 1] == s[i + 2];
    }
  }

  /** Two descending lists of the same names start with the same name. */
  lemma SameHead(a: seq<string>, b: seq<string>)
    requires Descending(a) && Descending(b) && multiset(a) == multiset(b) && |a| > 0
    ensures |b| > 0 && a[0] == b[0]
  {
    assert |b| == |multiset(b)| == |multiset(a)| == |a|;
    assert a[0] in multiset(b);
    assert b[0] in multiset(a);
    HeadIsGreatest(a, b[0]);
    HeadIsGreatest(b, a[0]);
    LessTotal(a[0], b[0]);
  }

  lemma SameTail(a: seq<string>, b: seq<string>)
    requires multiset(a) == multiset(b) && |a| > 0 && |b| > 0 && a[0] == b[0]
    ensures multiset(a[1..]) == multiset(b[1..])
  {
    assert a == [a[0]] + a[1..] && b == [b[0]] + b[1..];
    assert multiset(a[1..]) == multiset(a) - multiset{a[0]};
    assert multiset(b[1..]) == multiset(b) - multiset{b[0]};
  }

  /** A descending order of a collection of names is unique: any list with
      the same names that is descending is exactly the sorted-and-reversed one. */
  lemma {:induction false} DescendingUnique(a: seq<string>, b: seq<string>)
    requires Descending(a) && Descending(b) && multiset(a) == multiset(b)
    ensures a == b
  {
    if |a| > 0 {
      SameHead(a, b);
      SameTail(a, b);
      DescendingTail(a);
      DescendingTail(b);
      DescendingUnique(a[1..], b[1..]);
      assert a == [a[0]] + a[1..] && b == [b[0]] + b[1..];
    } else {
      assert |b| == |multiset(b)|;
    }
  }

  /** The combo box order depends only on which ports exist, not on the
      order they are reported in. */
  lemma EnumerationOrderIrrelevant(names: seq<string>, other: seq<string>)
    requires multiset(names) == multiset(other)
    ensures ReverseSorted(names) == ReverseSorted(other)
  {
    DescendingUnique(ReverseSorted(names), ReverseSorted(other));
  }
}
