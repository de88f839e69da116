/** Sorting of keyed items by key in byte order, as `sort.Sort` does with the two Less orders of bencode/encode.go. */
module Sorting {
  import opened Bytes

  datatype Keyed<T> = Keyed(key: bytes, item: T)

  function Insert<T>(x: Keyed<T>, xs: seq<Keyed<T>>): seq<Keyed<T>> {
    if xs == [] || !Less(xs[0].key, x.key) then [x] + xs
    else [xs[0]] + Insert(x, xs[1..])
  }

  function Sort<T>(xs: seq<Keyed<T>>): seq<Keyed<T>> {
    if xs == [] then [] else Insert(xs[0], Sort(xs[1..]))
  }

  /** Strictly increasing keys. */
  predicate Increasing<T>(xs: seq<Keyed<T>>) {
    |xs| <= 1 || (Less(xs[0].key, xs[1].key) && Increasing(xs[1..]))
  }

  predicate Distinct<T>(xs: seq<Keyed<T>>) {
    forall i, j | 0 <= i < j < |xs| :: xs[i].key != xs[j].key
  }

  lemma {:induction false} IncreasingAbove<T>(xs: seq<Keyed<T>>, j: nat)
    requires Increasing(xs) && 0 < j < |xs|
    ensures Less(xs[0].key, xs[j].key)
  {
    if j > 1 {
      IncreasingAbove(xs[1..], j - 1);
      LessTransitive(xs[0].key, xs[1].key, xs[j].key);
    }
  }

  lemma {:induction false} IncreasingDistinct<T>(xs: seq<Keyed<T>>)
    requires Increasing(xs)
    ensures Distinct(xs)
  {
    if xs == [] {
    } else {
      IncreasingDistinct(xs[1..]);
      forall i, j | 0 <= i < j < |xs| ensures xs[i].key != xs[j].key {
        if i == 0 {
          IncreasingAbove(xs, j);
          LessIrreflexive(xs[0].key);
        } else {
          assert xs[i] == xs[1..][i - 1] && xs[j] == xs[1..][j - 1];
        }
      }
    }
  }

  lemma {:induction false} InsertIncreasing<T>(x: Keyed<T>, xs: seq<Keyed<T>>)
    requires Increasing(xs) && forall j | 0 <= j < |xs| :: xs[j].key != x.key
    ensures Increasing(Insert(x, xs))
    ensures Insert(x, xs)[0] == x || (xs != [] && Insert(x, xs)[0] == xs[0])
  {
    if xs != [] && Less(xs[0].key, x.key) {
      InsertIncreasing(x, xs[1..]);
      assert Insert(x, xs)[1..] == Insert(x, xs[1..]);
    } else if xs != [] {
      LessTotal(xs[0].key, x.key);
      assert Insert(x, xs)[1..] == xs;
    }
  }

  lemma {:induction false} InsertMultiset<T>(x: Keyed<T>, xs: seq<Keyed<T>>)
    ensures multiset(Insert(x, xs)) == multiset(xs) + multiset{x}
  {
    if xs != [] && Less(xs[0].key, x.key) {
      InsertMultiset(x, xs[1..]);
      assert xs == [xs[0]] + xs[1..];
    }
  }

  lemma {:induction false} SortMultiset<T>(xs: seq<Keyed<T>>)
    ensures multiset(Sort(xs)) == multiset(xs)
  {
    if xs == [] {
    } else {
      SortMultiset(xs[1..]);
      InsertMultiset(xs[0], Sort(xs[1..]));
      assert xs == [xs[0]] + xs[1..];
    }
  }

  lemma InMultiset<T>(xs: seq<T>, ys: seq<T>, x: T)
    requires multiset(xs) == multiset(ys)
    ensures x in xs <==> x in ys
  {
    assert x in xs <==> x in multiset(xs);
    assert x in ys <==> x in multiset(ys);
  }

  lemma {:induction false} SortIncreasing<T>(xs: seq<Keyed<T>>)
    requires Distinct(xs)
    ensures Increasing(Sort(xs))
  {
    if xs == [] {
    } else {
      SortIncreasing(xs[1..]);
      SortMultiset(xs[1..]);
      var s := Sort(xs[1..]);
      forall j | 0 <= j < |s| ensures s[j].key != xs[0].key {
        assert s[j] in s;
        InMultiset(s, xs[1..], s[j]);
      }
      InsertIncreasing(xs[0], s);
    }
  }

  lemma TakeOut<T>(xs: seq<T>, j: nat)
    requires j < |xs|
    ensures xs == xs[..j] + ([xs[j]] + xs[j + 1..])
    ensures multiset(xs[..j] + xs[j + 1..]) == multiset(xs) - multiset{xs[j]}
  {
    assert xs == xs[..j] + ([xs[j]] + xs[j + 1..]);
  }

  lemma Behead<T>(xs: seq<T>)
    requires xs != []
    ensures multiset(xs[1..]) == multiset(xs) - multiset{xs[0]}
  {
    assert xs == [xs[0]] + xs[1..];
  }

  /** Sorted, with nothing said about equal keys. */
  predicate NonDecreasing<T>(xs: seq<Keyed<T>>) {
    forall i, j | 0 <= i < j < |xs| :: !Less(xs[j].key, xs[i].key)
  }

  lemma NonDecreasingCons<T>(x: Keyed<T>, xs: seq<Keyed<T>>)
    requires NonDecreasing(xs) && forall y | y in xs :: !Less(y.key, x.key)
    ensures NonDecreasing([x] + xs)
  {
    var r := [x] + xs;
    forall i, j | 0 <= i < j < |r| ensures !Less(r[j].key, r[i].key) {
      assert r[j] == xs[j - 1] && xs[j - 1] in xs;
    }
  }

  lemma {:induction false} NonDecreasingInsert<T>(x: Keyed<T>, xs: seq<Keyed<T>>)
    requires NonDecreasing(xs)
    ensures NonDecreasing(Insert(x, xs))
  {
    if xs != [] && Less(xs[0].key, x.key) {
      NonDecreasingInsert(x, xs[1..]);
      InsertMultiset(x, xs[1..]);
      forall y | y in Insert(x, xs[1..]) ensures !Less(y.key, xs[0].key) {
        assert y in multiset(Insert(x, xs[1..]));
        LessAsymmetric(xs[0].key, x.key);
      }
      NonDecreasingCons(xs[0], Insert(x, xs[1..]));
    } else {
      forall y | y in xs ensures !Less(y.key, x.key) {
        LessIrreflexive(y.key);
        LessTotal(x.key, xs[0].key);
        if Less(y.key, x.key) && Less(x.key, xs[0].key) {
          LessTransitive(y.key, x.key, xs[0].key);
        }
      }
      NonDecreasingCons(x, xs);
    }
  }

  lemma {:induction false} SortNonDecreasing<T>(xs: seq<Keyed<T>>)
    ensures NonDecreasing(Sort(xs))
  {
    if xs == [] {
    } else {
      SortNonDecreasing(xs[1..]);
      NonDecreasingInsert(xs[0], Sort(xs[1..]));
    }
  }

  lemma SortedHead<T>(ys: seq<Keyed<T>>, zs: seq<Keyed<T>>)
    requires NonDecreasing(ys) && Increasing(zs) && ys != [] && zs != []
    requires ys[0] in zs && zs[0] in ys
    ensures ys[0] == zs[0]
  {
    var i :| 0 <= i < |zs| && zs[i] == ys[0];
    var j :| 0 <= j < |ys| && ys[j] == zs[0];
    if i > 0 {
      IncreasingAbove(zs, i);
      LessAsymmetric(zs[0].key, zs[i].key);
    }
  }

  /** A sorted arrangement is unique when there is one with strictly increasing keys. */
  lemma {:induction false} SortedUnique<T>(ys: seq<Keyed<T>>, zs: seq<Keyed<T>>)
    requires NonDecreasing(ys) && Increasing(zs) && multiset(ys) == multiset(zs)
    ensures ys == zs
  {
    if ys == [] || zs == [] {
      assert |multiset(ys)| == |ys| && |multiset(zs)| == |zs|;
    } else {
      InMultiset(ys, zs, ys[0]);
      InMultiset(ys, zs, zs[0]);
      SortedHead(ys, zs);
      Behead(ys);
      Behead(zs);
      SortedUnique(ys[1..], zs[1..]);
      assert ys == [ys[0]] + ys[1..] && zs == [zs[0]] + zs[1..];
    }
  }

  /** With distinct keys the outcome of sorting is determined. */
  lemma SortDetermined<T>(xs: seq<Keyed<T>>, ys: seq<Keyed<T>>)
    requires multiset(ys) == multiset(xs) && NonDecreasing(ys) && Distinct(xs)
    ensures ys == Sort(xs)
  {
    hide NonDecreasing, Distinct, Sort;
    SortIncreasing(xs);
    SortMultiset(xs);
    SortedUnique(ys, Sort(xs));
  }

  lemma {:induction false} SortFixed<T>(xs: seq<Keyed<T>>)
    requires Increasing(xs)
    ensures Sort(xs) == xs
  {
    SortNonDecreasing(xs);
    SortMultiset(xs);
    SortedUnique(Sort(xs), xs);
  }
}
