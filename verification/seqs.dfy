/**
 * Linear scans over a collection whose records are keyed by a string field
 * (a book's GUID, a reservation's book GUID or person). Both storage
 * collections are plain sequences, and every lookup, count and removal in
 * the library is one of these scans.
 */
module Seqs {
  import opened Common

  /** `xs` is obtained from `ys` by deleting elements, so it keeps their relative order. */
  ghost predicate IsSubsequence<T>(xs: seq<T>, ys: seq<T>)
    decreases |ys|
  {
    if |ys| == 0 then |xs| == 0
    else (|xs| > 0 && xs[0] == ys[0] && IsSubsequence(xs[1..], ys[1..]))
         || IsSubsequence(xs, ys[1..])
  }

  /** No two records share a key. */
  ghost predicate UniqueKeys<T>(xs: seq<T>, key: T -> string)
  {
    forall i, j :: 0 <= i < j < |xs| ==> key(xs[i]) != key(xs[j])
  }

  /** The number of records whose key equals `v`. */
  function CountKey<T>(xs: seq<T>, key: T -> string, v: string): (n: nat)
    ensures n <= |xs|
    ensures n == 0 <==> forall i :: 0 <= i < |xs| ==> key(xs[i]) != v
  {
    if |xs| == 0 then 0
    else (if key(xs[0]) == v then 1 else 0) + CountKey(xs[1..], key, v)
  }

  /** The first record whose key equals `g`, or None when there is none. */
  function First<T>(xs: seq<T>, key: T -> string, g: string): (r: Option<T>)
    ensures r.None? <==> forall i :: 0 <= i < |xs| ==> key(xs[i]) != g
    ensures r.Some? ==>
      (exists i :: 0 <= i < |xs| && xs[i] == r.value && key(xs[i]) == g
                   && forall j :: 0 <= j < i ==> key(xs[j]) != g)
  {
    if |xs| == 0 then None
    else if key(xs[0]) == g then Some(xs[0])
    else
      var r := First(xs[1..], key, g);
      assert r.Some? ==> (exists i :: 1 <= i < |xs| && xs[i] == r.value && key(xs[i]) == g
                                       && forall j :: 0 <= j < i ==> key(xs[j]) != g)
        by {
          if r.Some? {
            var i :| 0 <= i < |xs[1..]| && xs[1..][i] == r.value && key(xs[1..][i]) == g
              && forall j :: 0 <= j < i ==> key(xs[1..][j]) != g;
            assert forall j :: 1 <= j < i + 1 ==> key(xs[j]) == key(xs[1..][j - 1]);
          }
        }
      r
  }

  /** Every record whose key differs from `g`, in their original order. */
  function Without<T>(xs: seq<T>, key: T -> string, g: string): (r: seq<T>)
    ensures forall i :: 0 <= i < |r| ==> key(r[i]) != g
    ensures IsSubsequence(r, xs)
    ensures |r| == |xs| - CountKey(xs, key, g)
  {
    if |xs| == 0 then []
    else if key(xs[0]) == g then Without(xs[1..], key, g)
    else [xs[0]] + Without(xs[1..], key, g)
  }

  /** A record survives removal exactly when it was there and its key differs from `g`. */
  lemma {:induction false} WithoutContains<T>(xs: seq<T>, key: T -> string, g: string, x: T)
    ensures x in Without(xs, key, g) <==> x in xs && key(x) != g
    decreases |xs|
  {
    if |xs| > 0 {
      WithoutContains(xs[1..], key, g, x);
      assert x in xs <==> x == xs[0] || x in xs[1..];
    }
  }

  /** Removal distributes over concatenation. */
  lemma {:induction false} WithoutAppend<T>(a: seq<T>, b: seq<T>, key: T -> string, g: string)
    ensures Without(a + b, key, g) == Without(a, key, g) + Without(b, key, g)
    decreases |a|
  {
    if |a| == 0 {
      assert a + b == b;
    } else {
      assert (a + b)[1..] == a[1..] + b;
      WithoutAppend(a[1..], b, key, g);
    }
  }

  /** Removing an absent key changes nothing. */
  lemma {:induction false} WithoutAbsent<T>(xs: seq<T>, key: T -> string, g: string)
    requires forall i :: 0 <= i < |xs| ==> key(xs[i]) != g
    ensures Without(xs, key, g) == xs
    decreases |xs|
  {
    if |xs| > 0 {
      WithoutAbsent(xs[1..], key, g);
    }
  }

  /** Appending one record adds one to its key's count and nothing to the others. */
  lemma {:induction false} CountAppend<T>(xs: seq<T>, x: T, key: T -> string, v: string)
    ensures CountKey(xs + [x], key, v) == CountKey(xs, key, v) + (if key(x) == v then 1 else 0)
    decreases |xs|
  {
    if |xs| == 0 {
      assert xs + [x] == [x];
    } else {
      assert (xs + [x])[1..] == xs[1..] + [x];
      CountAppend(xs[1..], x, key, v);
    }
  }

  /** Removal by one key never raises the count for another key. */
  lemma {:induction false} CountWithout<T>(xs: seq<T>, key: T -> string, g: string, other: T -> string, v: string)
    ensures CountKey(Without(xs, key, g), other, v) <= CountKey(xs, other, v)
    decreases |xs|
  {
    if |xs| > 0 {
      CountWithout(xs[1..], key, g, other, v);
      if key(xs[0]) != g {
        assert ([xs[0]] + Without(xs[1..], key, g))[1..] == Without(xs[1..], key, g);
      }
    }
  }

  /** Removal keeps keys unique. */
  lemma {:induction false} UniqueWithout<T>(xs: seq<T>, key: T -> string, g: string)
    requires UniqueKeys(xs, key)
    ensures UniqueKeys(Without(xs, key, g), key)
    decreases |xs|
  {
    if |xs| > 0 {
      assert UniqueKeys(xs[1..], key) by {
        forall i, j | 0 <= i < j < |xs[1..]|
          ensures key(xs[1..][i]) != key(xs[1..][j])
        {
          assert xs[1..][i] == xs[i + 1] && xs[1..][j] == xs[j + 1];
        }
      }
      UniqueWithout(xs[1..], key, g);
      var rest := Without(xs[1..], key, g);
      if key(xs[0]) != g {
        var r := [xs[0]] + rest;
        forall i, j | 0 <= i < j < |r| ensures key(r[i]) != key(r[j]) {
          if i == 0 {
            assert r[j] == rest[j - 1];
            WithoutContains(xs[1..], key, g, rest[j - 1]);
            var k :| 0 <= k < |xs[1..]| && xs[1..][k] == rest[j - 1];
            assert xs[k + 1] == rest[j - 1];
          } else {
            assert r[i] == rest[i - 1] && r[j] == rest[j - 1];
          }
        }
      }
    }
  }

  /** Removal over a prefix grown by one record. */
  lemma WithoutSnoc<T>(xs: seq<T>, k: nat, key: T -> string, g: string)
    requires k < |xs|
    ensures Without(xs[..k + 1], key, g)
            == Without(xs[..k], key, g) + (if key(xs[k]) == g then [] else [xs[k]])
  {
    assert xs[..k + 1] == xs[..k] + [xs[k]];
    WithoutAppend(xs[..k], [xs[k]], key, g);
  }

  /** The state of the removal loop: the first `k` records are processed, and `i` indexes the first unprocessed one in `ys`. */
  ghost predicate RemovalState<T>(xs: seq<T>, key: T -> string, g: string, k: int, i: int, ys: seq<T>)
  {
    0 <= k <= |xs|
    && i == |Without(xs[..k], key, g)|
    && ys == Without(xs[..k], key, g) + xs[k..]
  }

  /** One step of the removal loop: drop the record at `i` when it matches, step past it otherwise. */
  lemma RemoveStep<T>(xs: seq<T>, key: T -> string, g: string, k: int, i: int, ys: seq<T>)
    requires RemovalState(xs, key, g, k, i, ys) && k < |xs|
    ensures i < |ys| && ys[i] == xs[k]
    ensures key(xs[k]) == g ==> RemovalState(xs, key, g, k + 1, i, ys[..i] + ys[i + 1..])
    ensures key(xs[k]) != g ==> RemovalState(xs, key, g, k + 1, i + 1, ys)
  {
    var w := Without(xs[..k], key, g);
    WithoutSnoc(xs, k, key, g);
    assert xs[k..] == [xs[k]] + xs[k + 1..];
    assert ys == w + [xs[k]] + xs[k + 1..];
    if key(xs[k]) == g {
      assert ys[..|w|] == w;
      assert ys[|w| + 1..] == xs[k + 1..];
    }
  }

  /**
   * Java's in-place removal loop: walk an index over the array, and on a match
   * remove the element and step the index back so the next element is not skipped.
   */
  method RemoveMatching<T>(xs: seq<T>, key: T -> string, g: string) returns (ys: seq<T>)
    ensures ys == Without(xs, key, g)
  {
    ys := xs;
    var i := 0;
    ghost var k := 0;
    assert xs[..0] == [] && xs[0..] == xs;
    while i < |ys|
      invariant RemovalState(xs, key, g, k, i, ys)
      invariant |ys| == i + |xs| - k
      decreases |ys| - i
    {
      RemoveStep(xs, key, g, k, i, ys);
      if key(ys[i]) == g {
        ys := ys[..i] + ys[i + 1..];
      } else {
        i := i + 1;
      }
      k := k + 1;
    }
    assert xs[..k] == xs;
  }
}
