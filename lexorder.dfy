/** Byte-wise string order, the order `sort.Strings` sorts by. UTF-8 encodes code
    points so that byte-wise order equals code-point order, so comparing the
    characters of a Dafny string by their code points is the same order. */
module LexOrder {
  /** `a < b` for Go strings: `a` is a proper prefix of `b`, or at the first position
      where they differ `a` has the smaller character. */
  predicate Less(a: string, b: string)
    ensures a < b ==> Less(a, b)
    ensures Less(a, b) ==> !(b <= a)
    decreases |a|
  {
    |b| > 0 && (|a| == 0 || (if a[0] == b[0] then Less(a[1..], b[1..]) else a[0] < b[0]))
  }

  lemma {:induction false} LessIrreflexive(a: string)
    ensures !Less(a, a)
    decreases |a|
  {
    if |a| > 0 {
      LessIrreflexive(a[1..]);
    }
  }

  lemma {:induction false} LessAsymmetric(a: string, b: string)
    requires Less(a, b)
    ensures !Less(b, a)
    decreases |a|
  {
    if |a| > 0 && a[0] == b[0] {
      LessAsymmetric(a[1..], b[1..]);
    }
  }

  lemma {:induction false} LessTransitive(a: string, b: string, c: string)
    requires Less(a, b) && Less(b, c)
    ensures Less(a, c)
    decreases |a|
  {
    if |a| > 0 && a[0] == b[0] && b[0] == c[0] {
      LessTransitive(a[1..], b[1..], c[1..]);
    }
  }

  /** Any two different strings are ordered one way or the other. */
  lemma {:induction false} LessTotal(a: string, b: string)
    ensures a == b || Less(a, b) || Less(b, a)
    decreases |a|
  {
    if |a| > 0 && |b| > 0 && a[0] == b[0] {
      LessTotal(a[1..], b[1..]);
      if a[1..] == b[1..] {
        assert a == [a[0]] + a[1..] && b == [b[0]] + b[1..];
      }
    }
  }

  /** Sorted in Go's sense (`sort.StringsAreSorted`): no element is less than the
      one before it. */
  ghost predicate Sorted(s: seq<string>) {
    forall k :: 0 < k < |s| ==> !Less(s[k], s[k - 1])
  }

  /** Every element is less than every later one: sorted and free of duplicates. */
  ghost predicate StrictlyIncreasing(s: seq<string>) {
    forall p, q :: 0 <= p < q < |s| ==> Less(s[p], s[q])
  }

  /** Each element less than the next makes a sequence strictly increasing. */
  lemma {:induction false} IncreasingAdjacent(s: seq<string>)
    requires forall k :: 0 < k < |s| ==> Less(s[k - 1], s[k])
    ensures StrictlyIncreasing(s)
    decreases |s|
  {
    if |s| > 1 {
      var init := s[..|s| - 1];
      var last := |s| - 1;
      IncreasingAdjacent(init);
      forall p, q | 0 <= p < q < |s|
        ensures Less(s[p], s[q])
      {
        if q < last {
          assert Less(init[p], init[q]);
        } else if p < last - 1 {
          assert Less(init[p], init[last - 1]);
          LessTransitive(s[p], s[last - 1], s[last]);
        }
      }
    }
  }

  /** A strictly increasing sequence is fixed by its set of elements. */
  lemma {:induction false} StrictlyIncreasingUnique(r1: seq<string>, r2: seq<string>)
    requires StrictlyIncreasing(r1) && StrictlyIncreasing(r2)
    requires forall x :: x in r1 <==> x in r2
    ensures r1 == r2
    decreases |r1|
  {
    if r1 != [] || r2 != [] {
      assert r1 != [] ==> r1[0] in r2;
      assert r2 != [] ==> r2[0] in r1;
      if r1[0] != r2[0] {
        var k :| 0 <= k < |r2| && r2[k] == r1[0];
        assert r2[0] in r1;
        var m :| 0 <= m < |r1| && r1[m] == r2[0];
        assert k > 0 && m > 0;
        LessAsymmetric(r1[0], r1[m]);
        assert false;
      }
      var t1, t2 := r1[1..], r2[1..];
      forall x
        ensures x in t1 <==> x in t2
      {
        if x in t1 {
          var i :| 0 <= i < |t1| && t1[i] == x;
          assert Less(r1[0], r1[i + 1]);
          LessIrreflexive(x);
          assert x in r2 && x != r2[0];
        }
        if x in t2 {
          var i :| 0 <= i < |t2| && t2[i] == x;
          assert Less(r2[0], r2[i + 1]);
          LessIrreflexive(x);
          assert x in r1 && x != r1[0];
        }
      }
      StrictlyIncreasingUnique(t1, t2);
      assert r1 == [r1[0]] + t1 && r2 == [r2[0]] + t2;
    }
  }
}
