/**
 The `.sort()` of `main`: `Array.prototype.sort` without a comparator, which
 orders strings lexicographically by code unit. Dafny compares `char`s by code
 point; the two orders agree on ASCII text, and every tag is ASCII
 (`AsciiTags`), so the model sorts with the code-point order.
 */
module TagOrder {

  import TagScan

  /** Default sort order: `a` sorts strictly before `b`. A proper prefix sorts
      first; otherwise the first differing character decides. */
  predicate Below(a: string, b: string) {
    if |a| == 0 then |b| > 0
    else if |b| == 0 then false
    else if a[0] != b[0] then a[0] < b[0]
    else Below(a[1..], b[1..])
  }

  predicate NotAbove(a: string, b: string) {
    a == b || Below(a, b)
  }

  /** Sorted in the non-strict sense, as `.sort()` leaves any array. */
  predicate Sorted(xs: seq<string>) {
    forall i, j :: 0 <= i < j < |xs| ==> NotAbove(xs[i], xs[j])
  }

  /** Sorted without repetition. */
  predicate StrictlyAscending(xs: seq<string>) {
    forall i, j :: 0 <= i < j < |xs| ==> Below(xs[i], xs[j])
  }

  predicate Distinct(xs: seq<string>) {
    forall i, j :: 0 <= i < j < |xs| ==> xs[i] != xs[j]
  }

  /** Independent reading of `Below`: at the first index where the two differ,
      `a` has the smaller character, or `a` has run out while `b` has not. */
  lemma {:induction false} BelowIffFirstDifference(a: string, b: string)
    ensures Below(a, b) <==>
              exists k :: 0 <= k <= |a| && k <= |b| && a[..k] == b[..k] &&
                          ((k == |a| && k < |b|) || (k < |a| && k < |b| && a[k] < b[k]))
  {
    if |a| > 0 && |b| > 0 && a[0] == b[0] {
      BelowIffFirstDifference(a[1..], b[1..]);
      if Below(a, b) {
        var k :| 0 <= k <= |a| - 1 && k <= |b| - 1 && a[1..][..k] == b[1..][..k] &&
                 ((k == |a| - 1 && k < |b| - 1) || (k < |a| - 1 && k < |b| - 1 && a[1..][k] < b[1..][k]));
        assert a[..k + 1] == [a[0]] + a[1..][..k];
        assert b[..k + 1] == [b[0]] + b[1..][..k];
      }
      if k :| 0 <= k <= |a| && k <= |b| && a[..k] == b[..k] &&
              ((k == |a| && k < |b|) || (k < |a| && k < |b| && a[k] < b[k])) {
        assert k != 0;
        assert a[1..][..k - 1] == a[1..k];
        assert b[1..][..k - 1] == b[1..k];
        assert a[1..k] == a[..k][1..];
        assert b[1..k] == b[..k][1..];
      }
    } else if |a| > 0 && |b| > 0 {
      assert a[..0] == b[..0];
    } else if |a| == 0 {
      assert a[..0] == b[..0];
    }
  }

  lemma {:induction false} BelowIrreflexive(a: string)
    ensures !Below(a, a)
  {
    if |a| > 0 {
      BelowIrreflexive(a[1..]);
    }
  }

  lemma {:induction false} BelowAsymmetric(a: string, b: string)
    ensures Below(a, b) ==> !Below(b, a)
  {
    if |a| > 0 && |b| > 0 && a[0] == b[0] {
      BelowAsymmetric(a[1..], b[1..]);
    }
  }

  lemma {:induction false} BelowTransitive(a: string, b: string, c: string)
    requires Below(a, b) && Below(b, c)
    ensures Below(a, c)
  {
    if |a| > 0 && a[0] == b[0] && b[0] == c[0] {
      BelowTransitive(a[1..], b[1..], c[1..]);
    }
  }

  /** Any two different strings are ordered one way or the other. */
  lemma {:induction false} BelowTotal(a: string, b: string)
    ensures a == b || Below(a, b) || Below(b, a)
  {
    if |a| > 0 && |b| > 0 && a[0] == b[0] {
      BelowTotal(a[1..], b[1..]);
      if a[1..] == b[1..] {
        assert a == [a[0]] + a[1..];
        assert b == [b[0]] + b[1..];
      }
    }
  }

  lemma NotAboveTransitive(a: string, b: string, c: string)
    requires NotAbove(a, b) && NotAbove(b, c)
    ensures NotAbove(a, c)
  {
    if Below(a, b) && Below(b, c) {
      BelowTransitive(a, b, c);
    }
  }

  /** Tags are ASCII, where code-unit and code-point order coincide. */
  lemma AsciiTags(t: string)
    requires TagScan.IsTag(t)
    ensures forall k :: 0 <= k < |t| ==> t[k] as int < 128
  {
  }

  /** Insert `x` into a sorted list at its place. */
  function Insert(x: string, ys: seq<string>): (r: seq<string>)
    requires Sorted(ys)
    ensures Sorted(r)
    ensures multiset(r) == multiset(ys) + multiset{x}
  {
    if |ys| == 0 then [x]
    else if NotAbove(x, ys[0]) then
      assert forall j :: 0 <= j < |ys| ==> NotAbove(x, ys[j]) by {
        forall j | 0 <= j < |ys| ensures NotAbove(x, ys[j]) {
          NotAboveTransitive(x, ys[0], ys[j]);
        }
      }
      [x] + ys
    else
      var rest := Insert(x, ys[1..]);
      assert ys == [ys[0]] + ys[1..];
      BelowTotal(x, ys[0]);
      assert forall k :: 0 <= k < |rest| ==> NotAbove(ys[0], rest[k]) by {
        forall k | 0 <= k < |rest| ensures NotAbove(ys[0], rest[k]) {
          assert rest[k] in multiset(rest);
          if rest[k] != x {
            assert rest[k] in multiset(ys[1..]);
            var j :| 0 <= j < |ys[1..]| && ys[1..][j] == rest[k];
            assert ys[j + 1] == rest[k];
          }
        }
      }
      [ys[0]] + rest
  }

  /** Insertion sort: `.sort()` as a function of the array. */
  function Sort(xs: seq<string>): (r: seq<string>)
    ensures Sorted(r)
    ensures multiset(r) == multiset(xs)
  {
    if |xs| == 0 then []
    else
      assert xs == [xs[0]] + xs[1..];
      Insert(xs[0], Sort(xs[1..]))
  }

  /** A sequence is free of repetitions exactly when it holds each value at most once. */
  lemma {:induction false} DistinctIffSingleCounts(xs: seq<string>)
    ensures Distinct(xs) <==> forall x :: multiset(xs)[x] <= 1
  {
    if |xs| > 0 {
      var tail := xs[1..];
      DistinctIffSingleCounts(tail);
      assert xs == [xs[0]] + tail;
      assert multiset(xs) == multiset{xs[0]} + multiset(tail);
      if Distinct(xs) {
        assert Distinct(tail) by {
          forall i, j | 0 <= i < j < |tail| ensures tail[i] != tail[j] {
            assert tail[i] == xs[i + 1] && tail[j] == xs[j + 1];
          }
        }
        assert xs[0] !in tail by {
          forall j | 0 <= j < |tail| ensures tail[j] != xs[0] {
            assert tail[j] == xs[j + 1];
          }
        }
      }
      if forall x :: multiset(xs)[x] <= 1 {
        assert multiset(tail)[xs[0]] == 0 by {
          assert multiset(xs)[xs[0]] == 1 + multiset(tail)[xs[0]];
        }
        forall x ensures multiset(tail)[x] <= 1 {
          assert multiset(xs)[x] >= multiset(tail)[x];
        }
        forall i, j | 0 <= i < j < |xs| ensures xs[i] != xs[j] {
          assert xs[j] == tail[j - 1];
          if i > 0 {
            assert xs[i] == tail[i - 1];
          } else {
            assert xs[j] in multiset(tail);
          }
        }
      }
    }
  }

  /** Reordering preserves the absence of repetitions. */
  lemma DistinctPermutation(a: seq<string>, b: seq<string>)
    requires multiset(a) == multiset(b) && Distinct(a)
    ensures Distinct(b)
  {
    DistinctIffSingleCounts(a);
    DistinctIffSingleCounts(b);
  }

  /** Sorting an array without repetitions gives a strictly ascending list of
      the same elements. */
  lemma SortDistinct(xs: seq<string>)
    requires Distinct(xs)
    ensures StrictlyAscending(Sort(xs))
    ensures forall x :: x in Sort(xs) <==> x in xs
  {
    var r := Sort(xs);
    DistinctPermutation(xs, r);
    forall x ensures x in r <==> x in xs {
      assert x in r <==> x in multiset(r);
      assert x in xs <==> x in multiset(xs);
    }
  }

  /** A strictly ascending list is determined by its elements: whatever order
      the array had before `.sort()`, the sorted list is the same. */
  lemma {:induction false} AscendingListingUnique(a: seq<string>, b: seq<string>)
    requires StrictlyAscending(a) && StrictlyAscending(b)
    requires forall x :: x in a <==> x in b
    ensures a == b
  {
    assert |a| > 0 ==> a[0] in b;
    assert |b| > 0 ==> b[0] in a;
    if |a| > 0 && |b| > 0 {
      assert a[0] == b[0] by {
        var i :| 0 <= i < |b| && b[i] == a[0];
        var j :| 0 <= j < |a| && a[j] == b[0];
        if 0 < i && 0 < j {
          BelowAsymmetric(b[0], a[0]);
        }
      }
      forall x ensures x in a[1..] <==> x in b[1..] {
        if x in a[1..] {
          var i :| 0 <= i < |a| - 1 && a[1..][i] == x;
          assert Below(a[0], a[i + 1]);
          BelowIrreflexive(a[0]);
          assert x in b && x != b[0];
          var j :| 0 <= j < |b| && b[j] == x;
          assert b[1..][j - 1] == x;
        }
        if x in b[1..] {
          var i :| 0 <= i < |b| - 1 && b[1..][i] == x;
          assert Below(b[0], b[i + 1]);
          BelowIrreflexive(b[0]);
          assert x in a && x != a[0];
          var j :| 0 <= j < |a| && a[j] == x;
          assert a[1..][j - 1] == x;
        }
      }
      AscendingListingUnique(a[1..], b[1..]);
      assert a == [a[0]] + a[1..];
      assert b == [b[0]] + b[1..];
    }
  }
}
