/** Python's ordering of `str` values (code point by code point, a proper
    prefix first) and `sorted(set(xs))` over it. */
module StringOrder {

  /** `a < b` on Python strings. */
  predicate Less(a: string, b: string)
    decreases |a|
  {
    b != [] && (a == [] || a[0] < b[0] || (a[0] == b[0] && Less(a[1..], b[1..])))
  }

  lemma {:induction false} LessIrreflexive(a: string)
    ensures !Less(a, a)
    decreases |a|
  {
    if a != [] {
      LessIrreflexive(a[1..]);
    }
  }

  lemma {:induction false} LessTransitive(a: string, b: string, c: string)
    requires Less(a, b) && Less(b, c)
    ensures Less(a, c)
    decreases |a|
  {
    if a != [] && a[0] == b[0] && b[0] == c[0] {
      LessTransitive(a[1..], b[1..], c[1..]);
    }
  }

  lemma {:induction false} LessTotal(a: string, b: string)
    requires a != b
    ensures Less(a, b) || Less(b, a)
    decreases |a|
  {
    if a != [] && b != [] && a[0] == b[0] {
      LessTotal(a[1..], b[1..]);
    }
  }

  lemma LessAsymmetric(a: string, b: string)
    requires Less(a, b)
    ensures !Less(b, a)
  {
    if Less(b, a) {
      LessTransitive(a, b, a);
      LessIrreflexive(a);
    }
  }

  /** Strictly increasing: sorted and without duplicates. */
  predicate StrictlySorted(s: seq<string>) {
    forall i, j :: 0 <= i < j < |s| ==> Less(s[i], s[j])
  }

  /** Puts `x` into its place in `s`; an `x` already present is not added again. */
  function Insert(x: string, s: seq<string>): (r: seq<string>)
    ensures forall y :: y in r <==> y == x || y in s
  {
    if s == [] then [x]
    else if x == s[0] then s
    else if Less(x, s[0]) then [x] + s
    else [s[0]] + Insert(x, s[1..])
  }

  lemma {:induction false} InsertSorted(x: string, s: seq<string>)
    requires StrictlySorted(s)
    ensures StrictlySorted(Insert(x, s))
  {
    if s != [] && x != s[0] && !Less(x, s[0]) {
      var rest := s[1..];
      assert StrictlySorted(rest) by {
        forall i, j | 0 <= i < j < |rest| ensures Less(rest[i], rest[j]) {
          assert rest[i] == s[i + 1] && rest[j] == s[j + 1];
        }
      }
      InsertSorted(x, rest);
      LessTotal(x, s[0]);
      var r := Insert(x, rest);
      forall y | y in r ensures Less(s[0], y) {
        if y != x {
          var k :| 0 < k < |s| && s[k] == y;
        }
      }
    } else if s != [] && x != s[0] {
      forall j | 0 < j < |s| ensures Less(x, s[j]) {
        LessTransitive(x, s[0], s[j]);
      }
    }
  }

  /** `sorted(set(xs))`. */
  function SortedUnique(xs: seq<string>): (r: seq<string>)
    ensures forall y :: y in r <==> y in xs
  {
    if xs == [] then [] else Insert(xs[|xs| - 1], SortedUnique(xs[..|xs| - 1]))
  }

  lemma {:induction false} SortedUniqueSorted(xs: seq<string>)
    ensures StrictlySorted(SortedUnique(xs))
  {
    if xs != [] {
      SortedUniqueSorted(xs[..|xs| - 1]);
      InsertSorted(xs[|xs| - 1], SortedUnique(xs[..|xs| - 1]));
    }
  }

  lemma HeadIn(s: seq<string>)
    requires s != []
    ensures s[0] in s
  {
  }

  /** A strictly sorted sequence is fixed by its elements: two with the same
      elements are equal, so the result does not depend on the input's order. */
  lemma {:induction false} StrictlySortedUnique(a: seq<string>, b: seq<string>)
    requires StrictlySorted(a) && StrictlySorted(b)
    requires forall y :: y in a <==> y in b
    ensures a == b
    decreases |a|
  {
    if a != [] && b != [] {
      if a[0] != b[0] {
        LessTotal(a[0], b[0]);
        assert a[0] in a && b[0] in b;
        if Less(a[0], b[0]) {
          var k :| 0 <= k < |b| && b[k] == a[0];
          assert k > 0;
          LessAsymmetric(b[0], b[k]);
        }
        assert false;
      }
      var a', b' := a[1..], b[1..];
      forall y ensures y in a' <==> y in b' {
        if y in a' {
          var k :| 0 <= k < |a'| && a'[k] == y;
          assert Less(a[0], a[k + 1]);
          LessIrreflexive(a[0]);
          assert a[k + 1] in a;
          assert y in b;
          var m :| 0 <= m < |b| && b[m] == y;
          assert m != 0;
          assert b'[m - 1] == y;
        }
        if y in b' {
          var k :| 0 <= k < |b'| && b'[k] == y;
          assert Less(b[0], b[k + 1]);
          LessIrreflexive(b[0]);
          assert b[k + 1] in b;
          assert y in a;
          var m :| 0 <= m < |a| && a[m] == y;
          assert m != 0;
          assert a'[m - 1] == y;
        }
      }
      assert StrictlySorted(a') by {
        forall i, j | 0 <= i < j < |a'| ensures Less(a'[i], a'[j]) { assert a'[i] == a[i + 1] && a'[j] == a[j + 1]; }
      }
      assert StrictlySorted(b') by {
        forall i, j | 0 <= i < j < |b'| ensures Less(b'[i], b'[j]) { assert b'[i] == b[i + 1] && b'[j] == b[j + 1]; }
      }
      StrictlySortedUnique(a', b');
      assert a == [a[0]] + a' && b == [b[0]] + b';
    } else if a != [] {
      HeadIn(a);
      assert false;
    } else if b != [] {
      HeadIn(b);
      assert false;
    }
  }

  /** The result depends only on the set of elements. */
  lemma SortedUniqueOrderIrrelevant(xs: seq<string>, ys: seq<string>)
    requires forall y :: y in xs <==> y in ys
    ensures SortedUnique(xs) == SortedUnique(ys)
  {
    SortedUniqueSorted(xs);
    SortedUniqueSorted(ys);
    StrictlySortedUnique(SortedUnique(xs), SortedUnique(ys));
  }
}
