/** The order `Array.prototype.sort()` uses without a comparator, on strings: the
    lexicographic order of their characters. Dafny's `<` on sequences means "proper
    prefix", so the order is written out here. */
module Ordering {

  /** `a` sorts strictly before `b`. */
  predicate Less(a: string, b: string) {
    if a == [] then b != []
    else b != [] && (a[0] < b[0] || (a[0] == b[0] && Less(a[1..], b[1..])))
  }

  lemma {:induction false} LessIrreflexive(a: string)
    ensures !Less(a, a)
  {
    if a != [] {
      LessIrreflexive(a[1..]);
    }
  }

  lemma {:induction false} LessTransitive(a: string, b: string, c: string)
    requires Less(a, b) && Less(b, c)
    ensures Less(a, c)
  {
    if a != [] && a[0] == b[0] && b[0] == c[0] {
      LessTransitive(a[1..], b[1..], c[1..]);
    }
  }

  /** Any two different strings are ordered one way round. */
  lemma {:induction false} LessTotal(a: string, b: string)
    ensures a == b || Less(a, b) || Less(b, a)
  {
    if a != [] && b != [] && a[0] == b[0] {
      LessTotal(a[1..], b[1..]);
      if a[1..] == b[1..] {
        assert a == [a[0]] + a[1..] && b == [b[0]] + b[1..];
      }
    }
  }

  lemma {:induction false} LessAsymmetric(a: string, b: string)
    requires Less(a, b)
    ensures !Less(b, a)
  {
    if a != [] && a[0] == b[0] {
      LessAsymmetric(a[1..], b[1..]);
    }
  }

  /** Non-decreasing, as `sort()` leaves an array. */
  predicate Sorted(s: seq<string>) {
    forall i, j :: 0 <= i < j < |s| ==> !Less(s[j], s[i])
  }

  /** Increasing: sorted and free of duplicates. */
  predicate StrictlySorted(s: seq<string>) {
    forall i, j :: 0 <= i < j < |s| ==> Less(s[i], s[j])
  }

  /** A sequence is sorted when its tail is and no element of the tail sorts before
      the head. */
  lemma ConsSorted(h: string, t: seq<string>)
    requires Sorted(t)
    requires forall j :: 0 <= j < |t| ==> !Less(t[j], h)
    ensures Sorted([h] + t)
  {
    var r := [h] + t;
    forall i, j | 0 <= i < j < |r| ensures !Less(r[j], r[i]) {
      assert r[j] == t[j - 1];
      if i > 0 { assert r[i] == t[i - 1]; }
    }
  }

  /** Inserts `x` into the sorted `s` before the first element that sorts after it. */
  function Insert(x: string, s: seq<string>): (r: seq<string>)
    requires Sorted(s)
    ensures Sorted(r)
    ensures multiset(r) == multiset(s) + multiset{x}
  {
    if s == [] then [x]
    else if Less(s[0], x) then
      var rest := Insert(x, s[1..]);
      assert s == [s[0]] + s[1..];
      forall j | 0 <= j < |rest| ensures !Less(rest[j], s[0]) {
        assert rest[j] in multiset(s[1..]) + multiset{x};
        if rest[j] == x {
          LessAsymmetric(s[0], x);
        } else {
          assert rest[j] in s[1..];
        }
      }
      ConsSorted(s[0], rest);
      [s[0]] + rest
    else
      forall j | 0 <= j < |s| ensures !Less(s[j], x) {
        LessTotal(x, s[0]);
        if Less(s[j], x) && j > 0 {
          LessTotal(s[0], s[j]);
          if Less(s[0], s[j]) { LessTransitive(s[0], s[j], x); }
        }
      }
      ConsSorted(x, s);
      [x] + s
  }

  /** The result of `xs.sort()`: sorted, and a permutation of `xs`. */
  function Sort(xs: seq<string>): (r: seq<string>)
    ensures Sorted(r)
    ensures multiset(r) == multiset(xs)
  {
    if xs == [] then []
    else
      assert xs == [xs[0]] + xs[1..];
      Insert(xs[0], Sort(xs[1..]))
  }

  /** `m` is in `s` and no element of `s` sorts before it. */
  ghost predicate IsLeast(m: string, s: set<string>) {
    m in s && forall y :: y in s ==> !Less(y, m)
  }

  /** Every non-empty set has a least element. */
  lemma {:induction false} LeastExists(s: set<string>)
    requires s != {}
    ensures exists m :: IsLeast(m, s)
    decreases s
  {
    var x :| x in s;
    var rest := s - {x};
    if rest == {} {
      forall y | y in s ensures !Less(y, x) {
        assert y !in rest;
        LessIrreflexive(x);
      }
      assert IsLeast(x, s);
    } else {
      LeastExists(rest);
      var m :| IsLeast(m, rest);
      if Less(x, m) {
        forall y | y in s ensures !Less(y, x) {
          if y == x {
            LessIrreflexive(x);
          } else if Less(y, x) {
            LessTransitive(y, x, m);
          }
        }
        assert IsLeast(x, s);
      } else {
        assert IsLeast(m, s);
      }
    }
  }

  /** The least element of a non-empty set. */
  ghost function Least(s: set<string>): (m: string)
    requires s != {}
    ensures IsLeast(m, s)
  {
    LeastExists(s);
    var m :| IsLeast(m, s);
    m
  }

  /** The elements of `s` in increasing order. */
  ghost function SortedElements(s: set<string>): seq<string>
    decreases s
  {
    if s == {} then []
    else
      var m := Least(s);
      [m] + SortedElements(s - {m})
  }

  lemma {:induction false} SortedElementsShape(s: set<string>)
    ensures Sorted(SortedElements(s))
    ensures multiset(SortedElements(s)) == multiset(s)
    decreases s
  {
    if s != {} {
      var m := Least(s);
      var rest := SortedElements(s - {m});
      SortedElementsShape(s - {m});
      assert multiset(s - {m}) + multiset{m} == multiset(s);
      forall j | 0 <= j < |rest| ensures !Less(rest[j], m) {
        assert rest[j] in multiset(s - {m});
      }
      ConsSorted(m, rest);
    }
  }

  /** No element of a sorted sequence sorts before its head. */
  lemma SortedHeadIsLeast(a: seq<string>, x: string)
    requires Sorted(a) && x in a
    ensures !Less(x, a[0])
  {
    var k :| 0 <= k < |a| && a[k] == x;
    if k == 0 {
      LessIrreflexive(x);
    }
  }

  lemma SortedTail(a: seq<string>)
    requires Sorted(a) && a != []
    ensures Sorted(a[1..])
  {
    var t := a[1..];
    forall i, j | 0 <= i < j < |t| ensures !Less(t[j], t[i]) {
      assert t[i] == a[i + 1] && t[j] == a[j + 1];
    }
  }

  /** Two sorted sequences with the same elements start with the same element. */
  lemma SortedSameHead(a: seq<string>, b: seq<string>)
    requires Sorted(a) && Sorted(b) && a != []
    requires multiset(a) == multiset(b)
    ensures b != [] && a[0] == b[0]
  {
    assert a[0] in multiset(b);
    assert b[0] in multiset(a);
    SortedHeadIsLeast(b, a[0]);
    SortedHeadIsLeast(a, b[0]);
    LessTotal(a[0], b[0]);
  }

  lemma TailMultiset(a: seq<string>)
    requires a != []
    ensures multiset(a[1..]) == multiset(a) - multiset{a[0]}
  {
    assert a == [a[0]] + a[1..];
  }

  /** A sorted sequence is determined by its multiset of elements. */
  lemma {:induction false} SortedUnique(a: seq<string>, b: seq<string>)
    requires Sorted(a) && Sorted(b)
    requires multiset(a) == multiset(b)
    ensures a == b
  {
    if a == [] {
      assert |b| == |multiset(b)| == 0;
    } else {
      SortedSameHead(a, b);
      TailMultiset(a);
      TailMultiset(b);
      SortedTail(a);
      SortedTail(b);
      SortedUnique(a[1..], b[1..]);
      assert a == [a[0]] + a[1..] && b == [b[0]] + b[1..];
    }
  }

  /** A value at two positions of a sequence occurs in it at least twice. */
  lemma DuplicateCount(r: seq<string>, i: nat, j: nat)
    requires i < j < |r| && r[i] == r[j]
    ensures multiset(r)[r[i]] >= 2
  {
    assert r == r[..j] + r[j..];
    assert r[i] in r[..j] && r[j] in r[j..];
  }

  /** A sorted sequence whose elements each occur once is increasing. */
  lemma SortedSetIsStrict(r: seq<string>, s: set<string>)
    requires Sorted(r) && multiset(r) == multiset(s)
    ensures StrictlySorted(r)
    ensures |r| == |s|
  {
    assert |r| == |multiset(r)| == |multiset(s)| == |s|;
    forall i, j | 0 <= i < j < |r| ensures Less(r[i], r[j]) {
      if r[i] == r[j] {
        DuplicateCount(r, i, j);
        assert false;
      }
      LessTotal(r[i], r[j]);
    }
  }
}
