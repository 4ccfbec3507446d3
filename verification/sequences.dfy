/** Generic sequence operations standing in for the LINQ operators the services use:
    `Where` (Filter), `Count`, `SelectMany` (Flatten) and `OrderBy` (SortBy, an
    insertion sort over a total preorder; its contract fixes the order of the keys,
    not the order among equal keys). */
module Sequences {
  import opened Wrappers

  /** The position of the first element satisfying `p` (`FindIndex`), if any. */
  function FirstIndex<T>(xs: seq<T>, p: T -> bool): (r: Option<nat>)
    ensures r.Some? ==> r.value < |xs| && p(xs[r.value])
    ensures r.Some? ==> forall j :: 0 <= j < r.value ==> !p(xs[j])
    ensures r.None? <==> forall i :: 0 <= i < |xs| ==> !p(xs[i])
  {
    if xs == [] then None
    else if p(xs[0]) then Some(0)
    else
      match FirstIndex(xs[1..], p)
      case None => None
      case Some(k) => Some(k + 1)
  }

  /** Elements before the first match only shift its position. */
  lemma {:induction false} FirstIndexSkips<T>(before: seq<T>, after: seq<T>, p: T -> bool)
    requires forall i :: 0 <= i < |before| ==> !p(before[i])
    ensures FirstIndex(before + after, p) ==
              match FirstIndex(after, p)
              case None => None
              case Some(k) => Some(k + |before|)
  {
    if before == [] {
      assert before + after == after;
    } else {
      assert (before + after)[0] == before[0];
      assert (before + after)[1..] == before[1..] + after;
      FirstIndexSkips(before[1..], after, p);
    }
  }

  /** The first defined result of `f` over `xs`, trying the elements in order. */
  function FirstSome<T, U>(xs: seq<T>, f: T -> Option<U>): (r: Option<U>)
    ensures r.None? <==> forall i :: 0 <= i < |xs| ==> f(xs[i]).None?
    ensures r.Some? ==> exists i :: 0 <= i < |xs| && f(xs[i]) == r && forall j :: 0 <= j < i ==> f(xs[j]).None?
  {
    match FirstIndex(xs, x => f(x).Some?)
    case None => None
    case Some(i) => f(xs[i])
  }

  /** The results of `f` over `xs` when every one is defined, `None` as soon as one is not. */
  function AllSome<T, U>(xs: seq<T>, f: T -> Option<U>): (r: Option<seq<U>>)
    ensures r.Some? <==> forall i :: 0 <= i < |xs| ==> f(xs[i]).Some?
    ensures r.Some? ==> |r.value| == |xs| && forall i :: 0 <= i < |xs| ==> f(xs[i]) == Some(r.value[i])
  {
    if xs == [] then Some([])
    else
      assert forall i :: 1 <= i < |xs| ==> xs[i] == xs[1..][i - 1];
      match f(xs[0])
      case None => None
      case Some(v) =>
        match AllSome(xs[1..], f)
        case None => None
        case Some(vs) => Some([v] + vs)
  }

  /** `xs.Where(p)`: the elements satisfying `p`, in their original order. */
  function Filter<T(!new)>(xs: seq<T>, p: T -> bool): (r: seq<T>)
    ensures |r| <= |xs|
    ensures forall x :: x in r <==> x in xs && p(x)
    ensures forall i :: 0 <= i < |r| ==> p(r[i])
  {
    if xs == [] then [] else (if p(xs[0]) then [xs[0]] else []) + Filter(xs[1..], p)
  }

  /** Filtering distributes over concatenation, which keeps the original order. */
  lemma {:induction false} FilterAppend<T(!new)>(xs: seq<T>, ys: seq<T>, p: T -> bool)
    ensures Filter(xs + ys, p) == Filter(xs, p) + Filter(ys, p)
  {
    if xs == [] {
      assert xs + ys == ys;
    } else {
      var head := if p(xs[0]) then [xs[0]] else [];
      var a, b := Filter(xs[1..], p), Filter(ys, p);
      assert (xs + ys)[1..] == xs[1..] + ys;
      FilterUnfold(xs + ys, p);
      FilterAppend(xs[1..], ys, p);
      FilterUnfold(xs, p);
      AppendAssoc(head, a, b);
    }
  }

  lemma AppendAssoc<T>(a: seq<T>, b: seq<T>, c: seq<T>)
    ensures a + (b + c) == (a + b) + c
  {
  }

  lemma FilterUnfold<T(!new)>(xs: seq<T>, p: T -> bool)
    requires xs != []
    ensures Filter(xs, p) == (if p(xs[0]) then [xs[0]] else []) + Filter(xs[1..], p)
  {
  }

  /** No two elements share a key. */
  predicate KeysDistinct<T, K(==)>(xs: seq<T>, key: T -> K)
  {
    forall i, j :: 0 <= i < j < |xs| ==> key(xs[i]) != key(xs[j])
  }

  /** Filtering keeps keys distinct. */
  lemma {:induction false} FilterKeysDistinct<T(!new), K>(xs: seq<T>, p: T -> bool, key: T -> K)
    requires KeysDistinct(xs, key)
    ensures KeysDistinct(Filter(xs, p), key)
  {
    if xs != [] {
      var rest := xs[1..];
      assert KeysDistinct(rest, key) by {
        forall i, j | 0 <= i < j < |rest| ensures key(rest[i]) != key(rest[j]) {
          assert rest[i] == xs[i + 1] && rest[j] == xs[j + 1];
        }
      }
      FilterKeysDistinct(rest, p, key);
      forall y | y in Filter(rest, p) ensures key(y) != key(xs[0]) {
        var k :| 0 <= k < |rest| && rest[k] == y;
        assert xs[k + 1] == y;
      }
      var head := if p(xs[0]) then [xs[0]] else [];
      ConcatKeysDistinct(head, Filter(rest, p), key);
    }
  }

  /** Two sequences with distinct keys and no key in common concatenate to one with
      distinct keys. */
  lemma ConcatKeysDistinct<T, K>(a: seq<T>, b: seq<T>, key: T -> K)
    requires KeysDistinct(a, key) && KeysDistinct(b, key)
    requires forall x, y :: x in a && y in b ==> key(x) != key(y)
    ensures KeysDistinct(a + b, key)
  {
    var c := a + b;
    forall i, j | 0 <= i < j < |c| ensures key(c[i]) != key(c[j]) {
      if j < |a| {
        assert c[i] == a[i] && c[j] == a[j];
      } else if i >= |a| {
        assert c[i] == b[i - |a|] && c[j] == b[j - |a|];
      } else {
        assert c[i] == a[i] && c[j] == b[j - |a|];
      }
    }
  }

  /** Groups with distinct keys inside and no key shared between groups flatten to a
      sequence with distinct keys. */
  lemma {:induction false} FlattenKeysDistinct<T(!new), K>(xss: seq<seq<T>>, key: T -> K)
    requires forall i :: 0 <= i < |xss| ==> KeysDistinct(xss[i], key)
    requires forall i, j, x, y :: 0 <= i < j < |xss| && x in xss[i] && y in xss[j] ==> key(x) != key(y)
    ensures KeysDistinct(Flatten(xss), key)
  {
    if xss != [] {
      var rest := xss[1..];
      forall i, j, x, y | 0 <= i < j < |rest| && x in rest[i] && y in rest[j] ensures key(x) != key(y) {
        assert rest[i] == xss[i + 1] && rest[j] == xss[j + 1];
      }
      FlattenKeysDistinct(rest, key);
      forall x, y | x in xss[0] && y in Flatten(rest) ensures key(x) != key(y) {
        var j :| 0 <= j < |rest| && y in rest[j];
        assert rest[j] == xss[j + 1];
      }
      ConcatKeysDistinct(xss[0], Flatten(rest), key);
    }
  }

  /** The keys of the elements of `xs`. */
  ghost function KeySet<T, K>(xs: seq<T>, key: T -> K): set<K>
  {
    set x | x in xs :: key(x)
  }

  /** A sequence with distinct keys has as many elements as keys. */
  lemma {:induction false} KeysDistinctCard<T, K>(xs: seq<T>, key: T -> K)
    requires KeysDistinct(xs, key)
    ensures |KeySet(xs, key)| == |xs|
  {
    if xs != [] {
      var rest := xs[1..];
      assert KeysDistinct(rest, key) by {
        forall i, j | 0 <= i < j < |rest| ensures key(rest[i]) != key(rest[j]) {
          assert rest[i] == xs[i + 1] && rest[j] == xs[j + 1];
        }
      }
      KeysDistinctCard(rest, key);
      var all := KeySet(xs, key);
      var tail := KeySet(rest, key);
      assert all == {key(xs[0])} + tail by {
        assert xs == [xs[0]] + rest;
      }
      assert key(xs[0]) !in tail by {
        forall y | y in rest ensures key(y) != key(xs[0]) {
          var k :| 0 <= k < |rest| && rest[k] == y;
          assert xs[k + 1] == y;
        }
      }
    }
  }

  /** The key grows strictly along the sequence. */
  predicate IncreasingBy<T>(xs: seq<T>, key: T -> int)
  {
    forall i, j :: 0 <= i < j < |xs| ==> key(xs[i]) < key(xs[j])
  }

  lemma ConcatIncreasing<T>(a: seq<T>, b: seq<T>, key: T -> int)
    requires IncreasingBy(a, key) && IncreasingBy(b, key)
    requires forall x, y :: x in a && y in b ==> key(x) < key(y)
    ensures IncreasingBy(a + b, key)
  {
    var c := a + b;
    forall i, j | 0 <= i < j < |c| ensures key(c[i]) < key(c[j]) {
      if j < |a| {
        assert c[i] == a[i] && c[j] == a[j];
      } else if i >= |a| {
        assert c[i] == b[i - |a|] && c[j] == b[j - |a|];
      } else {
        assert c[i] == a[i] && c[j] == b[j - |a|];
      }
    }
  }

  /** Filtering keeps a strictly increasing key strictly increasing. */
  lemma {:induction false} FilterIncreasing<T(!new)>(xs: seq<T>, p: T -> bool, key: T -> int)
    requires IncreasingBy(xs, key)
    ensures IncreasingBy(Filter(xs, p), key)
  {
    if xs != [] {
      var rest := xs[1..];
      assert IncreasingBy(rest, key) by {
        forall i, j | 0 <= i < j < |rest| ensures key(rest[i]) < key(rest[j]) {
          assert rest[i] == xs[i + 1] && rest[j] == xs[j + 1];
        }
      }
      FilterIncreasing(rest, p, key);
      forall y | y in Filter(rest, p) ensures key(xs[0]) < key(y) {
        var k :| 0 <= k < |rest| && rest[k] == y;
        assert xs[k + 1] == y;
      }
      var head := if p(xs[0]) then [xs[0]] else [];
      ConcatIncreasing(head, Filter(rest, p), key);
    }
  }

  /** No element occurs twice. */
  ghost predicate Distinct<T>(xs: seq<T>)
  {
    forall i, j :: 0 <= i < j < |xs| ==> xs[i] != xs[j]
  }

  lemma {:induction false} DistinctAtMostOnce<T>(xs: seq<T>, x: T)
    requires Distinct(xs)
    ensures multiset(xs)[x] <= 1
  {
    if xs != [] {
      var rest := xs[1..];
      assert Distinct(rest) by {
        forall i, j | 0 <= i < j < |rest| ensures rest[i] != rest[j] {
          assert rest[i] == xs[i + 1] && rest[j] == xs[j + 1];
        }
      }
      DistinctAtMostOnce(rest, x);
      assert xs == [xs[0]] + rest;
      if xs[0] == x {
        forall k | 0 <= k < |rest| ensures rest[k] != x {
          assert rest[k] == xs[k + 1];
        }
        assert x !in rest;
      }
    }
  }

  /** A permutation of a sequence without repeats has none either. */
  lemma PermutationDistinct<T>(xs: seq<T>, ys: seq<T>)
    requires multiset(xs) == multiset(ys) && Distinct(ys)
    ensures Distinct(xs)
  {
    forall i, j | 0 <= i < j < |xs| ensures xs[i] != xs[j] {
      if xs[i] == xs[j] {
        assert xs == xs[..j] + xs[j..];
        assert xs[i] == xs[..j][i] && xs[j] == xs[j..][0];
        assert multiset(xs[..j])[xs[i]] >= 1 && multiset(xs[j..])[xs[i]] >= 1;
        DistinctAtMostOnce(ys, xs[i]);
      }
    }
  }

  /** `xs.Count(p)`. */
  function Count<T(!new)>(xs: seq<T>, p: T -> bool): nat
  {
    |Filter(xs, p)|
  }

  /** `SelectMany(x => x)`: the inner sequences one after another. */
  function Flatten<T(!new)>(xss: seq<seq<T>>): (r: seq<T>)
    ensures forall x :: x in r <==> exists i :: 0 <= i < |xss| && x in xss[i]
  {
    if xss == [] then [] else xss[0] + Flatten(xss[1..])
  }

  /** `xs.Select(f)`. */
  function MapSeq<T, U>(xs: seq<T>, f: T -> U): (r: seq<U>)
    ensures |r| == |xs|
    ensures forall i :: 0 <= i < |xs| ==> r[i] == f(xs[i])
  {
    if xs == [] then [] else [f(xs[0])] + MapSeq(xs[1..], f)
  }

  /** A comparison usable as a sort key: total and transitive. */
  ghost predicate TotalPreorder<T(!new)>(leq: (T, T) -> bool)
  {
    && (forall a, b :: leq(a, b) || leq(b, a))
    && (forall a, b, c :: leq(a, b) && leq(b, c) ==> leq(a, c))
  }

  predicate SortedBy<T>(xs: seq<T>, leq: (T, T) -> bool)
  {
    forall i, j :: 0 <= i < j < |xs| ==> leq(xs[i], xs[j])
  }

  /** Inserts `x` in front of the first element it does not come after. */
  function InsertBy<T(!new)>(x: T, ys: seq<T>, leq: (T, T) -> bool): (r: seq<T>)
    requires TotalPreorder(leq) && SortedBy(ys, leq)
    ensures |r| == |ys| + 1
    ensures multiset(r) == multiset(ys) + multiset{x}
    ensures SortedBy(r, leq)
  {
    if ys == [] || leq(x, ys[0]) then
      [x] + ys
    else
      var rest := InsertBy(x, ys[1..], leq);
      assert ys == [ys[0]] + ys[1..];
      assert forall k :: 0 <= k < |rest| ==> leq(ys[0], rest[k]) by {
        forall k | 0 <= k < |rest| ensures leq(ys[0], rest[k]) {
          assert rest[k] in multiset(ys[1..]) + multiset{x};
          if rest[k] in ys[1..] {
            var j :| 0 <= j < |ys[1..]| && ys[1..][j] == rest[k];
            assert ys[j + 1] == rest[k];
          }
        }
      }
      [ys[0]] + rest
  }

  /** `OrderBy`: a sorted permutation of the input. */
  function SortBy<T(!new)>(xs: seq<T>, leq: (T, T) -> bool): (r: seq<T>)
    requires TotalPreorder(leq)
    ensures |r| == |xs|
    ensures multiset(r) == multiset(xs)
    ensures SortedBy(r, leq)
  {
    if xs == [] then []
    else
      assert xs == [xs[0]] + xs[1..];
      InsertBy(xs[0], SortBy(xs[1..], leq), leq)
  }

  /** A sorted permutation holds exactly the elements of its input. */
  lemma SameElements<T>(xs: seq<T>, ys: seq<T>)
    requires multiset(xs) == multiset(ys)
    ensures forall x :: x in xs <==> x in ys
  {
    forall x ensures x in xs <==> x in ys {
      assert x in xs <==> x in multiset(xs);
      assert x in ys <==> x in multiset(ys);
    }
  }
}
