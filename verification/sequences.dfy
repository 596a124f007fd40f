/** Counting over sequences, and the stable sort of an index vector. */
module Sequences {
  datatype Option<+T> = None | Some(value: T)

  function Count<T>(s: seq<T>, p: T -> bool): nat
  {
    if s == [] then 0 else (if p(s[0]) then 1 else 0) + Count(s[1..], p)
  }

  lemma {:induction false} CountConcat<T>(s: seq<T>, t: seq<T>, p: T -> bool)
    ensures Count(s + t, p) == Count(s, p) + Count(t, p)
  {
    if s == [] {
      assert s + t == t;
    } else {
      assert s + t == [s[0]] + (s[1..] + t);
      CountConcat(s[1..], t, p);
    }
  }

  function Without<T>(s: seq<T>, k: nat): seq<T>
    requires k < |s|
  {
    s[..k] + s[k + 1..]
  }

  lemma MultisetWithout<T>(s: seq<T>, k: nat)
    requires k < |s|
    ensures multiset(Without(s, k)) == multiset(s) - multiset{s[k]}
  {
    assert s == s[..k] + [s[k]] + s[k + 1..];
  }

  lemma {:induction false} CountWithout<T>(s: seq<T>, k: nat, p: T -> bool)
    requires k < |s|
    ensures Count(s, p) == Count(Without(s, k), p) + (if p(s[k]) then 1 else 0)
  {
    if k == 0 {
      assert Without(s, 0) == s[1..];
    } else {
      assert Without(s, k) == [s[0]] + Without(s[1..], k - 1);
      CountWithout(s[1..], k - 1, p);
    }
  }

  /** A count does not depend on the order of the elements. */
  lemma {:induction false} CountPermutation<T>(s: seq<T>, t: seq<T>, p: T -> bool)
    requires multiset(s) == multiset(t)
    ensures Count(s, p) == Count(t, p)
    decreases |s|
  {
    if s == [] {
      assert |t| == |multiset(t)| == |multiset(s)|;
    } else {
      var x := s[0];
      assert x in multiset(t);
      var k :| 0 <= k < |t| && t[k] == x;
      MultisetWithout(s, 0);
      MultisetWithout(t, k);
      CountWithout(s, 0, p);
      CountWithout(t, k, p);
      CountPermutation(Without(s, 0), Without(t, k), p);
    }
  }

  lemma {:induction false} CountAgrees<T>(s: seq<T>, p: T -> bool, q: T -> bool)
    requires forall x :: x in s ==> p(x) == q(x)
    ensures Count(s, p) == Count(s, q)
  {
    if s != [] {
      assert s[0] in s;
      CountAgrees(s[1..], p, q);
    }
  }

  lemma {:induction false} CountAll<T>(s: seq<T>, p: T -> bool)
    ensures (forall x :: x in s ==> p(x)) ==> Count(s, p) == |s|
    ensures (forall x :: x in s ==> !p(x)) ==> Count(s, p) == 0
  {
    if s != [] {
      assert s[0] in s;
      CountAll(s[1..], p);
    }
  }

  lemma {:induction false} CountAtMost<T>(s: seq<T>, p: T -> bool)
    ensures Count(s, p) <= |s|
  {
    if s != [] { CountAtMost(s[1..], p); }
  }

  // ---- Multisets of sequences ----

  ghost predicate Distinct<T>(s: seq<T>)
  {
    forall p, q :: 0 <= p < q < |s| ==> s[p] != s[q]
  }

  lemma {:induction false} DistinctMultiplicity<T>(s: seq<T>, x: T)
    requires Distinct(s)
    ensures multiset(s)[x] == if x in s then 1 else 0
  {
    if s != [] {
      assert s == [s[0]] + s[1..];
      assert Distinct(s[1..]);
      DistinctMultiplicity(s[1..], x);
    }
  }

  function Map<T, U>(s: seq<T>, f: T -> U): seq<U>
  {
    seq(|s|, i requires 0 <= i < |s| => f(s[i]))
  }

  lemma {:induction false} MapMultiplicity<T, U>(s: seq<T>, f: T -> U, y: U, p: T -> bool)
    requires forall x :: p(x) <==> f(x) == y
    ensures multiset(Map(s, f))[y] == Count(s, p)
  {
    if s != [] {
      assert Map(s, f) == [f(s[0])] + Map(s[1..], f);
      MapMultiplicity(s[1..], f, y, p);
    }
  }

  /** Mapping two orders of the same elements gives two orders of the same results. */
  lemma MapPermutation<T(!new), U(!new)>(s: seq<T>, t: seq<T>, f: T -> U)
    requires multiset(s) == multiset(t)
    ensures multiset(Map(s, f)) == multiset(Map(t, f))
  {
    var left, right := multiset(Map(s, f)), multiset(Map(t, f));
    forall y ensures left[y] == right[y] {
      var p := (x: T) => f(x) == y;
      MapMultiplicity(s, f, y, p);
      MapMultiplicity(t, f, y, p);
      CountPermutation(s, t, p);
    }
    assert left == right;
  }

  /** The indices `0..n`. */
  function Positions(n: nat): seq<nat>
  {
    seq(n, i => i)
  }

  lemma {:induction false} CountOne<T>(s: seq<T>, p: T -> bool, k: nat)
    requires k < |s| && p(s[k])
    ensures Count(s, p) >= 1
    ensures (forall q :: 0 <= q < |s| && q != k ==> !p(s[q])) ==> Count(s, p) == 1
    ensures forall q :: 0 <= q < |s| && q != k && p(s[q]) ==> Count(s, p) >= 2
  {
    CountWithout(s, k, p);
    var rest := Without(s, k);
    if forall q :: 0 <= q < |s| && q != k ==> !p(s[q]) {
      forall x | x in rest ensures !p(x) {
        var q :| 0 <= q < |rest| && rest[q] == x;
        assert x == if q < k then s[q] else s[q + 1];
      }
      CountAll(rest, p);
    }
    forall q | 0 <= q < |s| && q != k && p(s[q]) ensures Count(s, p) >= 2 {
      var q' := if q < k then q else q - 1;
      assert rest[q'] == s[q];
      CountWithout(rest, q', p);
    }
  }

  // ---- The stable sort of an index vector (`[usize]::sort_by`) ----

  function Insert(x: nat, s: seq<nat>, lt: (nat, nat) -> bool): seq<nat>
  {
    if s == [] || !lt(s[0], x) then [x] + s else [s[0]] + Insert(x, s[1..], lt)
  }

  /** Equal elements keep their order: each one is inserted ahead of the later ones it ties with. */
  function StableSort(s: seq<nat>, lt: (nat, nat) -> bool): seq<nat>
  {
    if s == [] then [] else Insert(s[0], StableSort(s[1..], lt), lt)
  }

  ghost predicate SortedBy(s: seq<nat>, lt: (nat, nat) -> bool)
  {
    forall p, q :: 0 <= p < q < |s| ==> lt(s[p], s[q])
  }

  ghost predicate Ascending(s: seq<nat>)
  {
    forall p, q :: 0 <= p < q < |s| ==> s[p] < s[q]
  }

  /** `lt` is a strict total order on the elements of `s`. */
  ghost predicate OrderOn(s: seq<nat>, lt: (nat, nat) -> bool)
  {
    && (forall x, y :: x in s && y in s && x != y ==> lt(x, y) || lt(y, x))
    && (forall x, y :: x in s && y in s ==> !(lt(x, y) && lt(y, x)))
    && (forall x, y, z :: x in s && y in s && z in s && lt(x, y) && lt(y, z) ==> lt(x, z))
  }

  lemma {:induction false} InsertMultiset(x: nat, s: seq<nat>, lt: (nat, nat) -> bool)
    ensures multiset(Insert(x, s, lt)) == multiset([x] + s)
  {
    if s == [] || !lt(s[0], x) {
    } else {
      InsertMultiset(x, s[1..], lt);
      assert s == [s[0]] + s[1..];
    }
  }

  lemma {:induction false} InsertSorted(x: nat, s: seq<nat>, lt: (nat, nat) -> bool)
    requires SortedBy(s, lt)
    requires forall q :: 0 <= q < |s| ==> lt(x, s[q]) || lt(s[q], x)
    requires forall p, q :: 0 <= p < q < |s| && lt(x, s[p]) && lt(s[p], s[q]) ==> lt(x, s[q])
    ensures SortedBy(Insert(x, s, lt), lt)
  {
    if s != [] && lt(s[0], x) {
      var t := s[1..];
      InsertSorted(x, t, lt);
      var r := Insert(x, t, lt);
      InsertMultiset(x, t, lt);
      forall q | 0 <= q < |r| ensures lt(s[0], r[q]) {
        assert r[q] in multiset([x] + t);
      }
    }
  }

  lemma {:induction false} StableSortSorted(s: seq<nat>, lt: (nat, nat) -> bool)
    requires OrderOn(s, lt) && Distinct(s)
    ensures multiset(StableSort(s, lt)) == multiset(s)
    ensures SortedBy(StableSort(s, lt), lt)
  {
    if s != [] {
      var t := s[1..];
      var r := StableSort(t, lt);
      assert s == [s[0]] + t;
      assert forall y :: y in t ==> y in s;
      assert Distinct(t);
      StableSortSorted(t, lt);
      forall y | y in r ensures y in t { assert y in multiset(r); }
      assert s[0] !in t;
      assert forall q :: 0 <= q < |r| ==> r[q] in s;
      InsertMultiset(s[0], r, lt);
      InsertSorted(s[0], r, lt);
    }
  }

  /** `lt`, with ties broken by the smaller index. */
  function Tied(lt: (nat, nat) -> bool): (nat, nat) -> bool
  {
    (x: nat, y: nat) => lt(x, y) || (!lt(y, x) && x < y)
  }

  lemma {:induction false} InsertTied(x: nat, s: seq<nat>, lt: (nat, nat) -> bool)
    requires forall y :: y in s ==> x < y
    requires forall y :: y in s ==> !(lt(x, y) && lt(y, x))
    ensures Insert(x, s, lt) == Insert(x, s, Tied(lt))
  {
    if s != [] {
      assert s[0] in s;
      assert Tied(lt)(s[0], x) == lt(s[0], x);
      assert forall y :: y in s[1..] ==> y in s;
      InsertTied(x, s[1..], lt);
    }
  }

  /** Sorting an ascending index vector stably by `lt` is sorting it by `lt` with ties by index. */
  lemma {:induction false} StableSortTied(s: seq<nat>, lt: (nat, nat) -> bool)
    requires Ascending(s)
    requires forall x, y :: x in s && y in s ==> !(lt(x, y) && lt(y, x))
    ensures StableSort(s, lt) == StableSort(s, Tied(lt))
    ensures multiset(StableSort(s, lt)) == multiset(s)
  {
    if s != [] {
      var t := s[1..];
      assert s == [s[0]] + t;
      forall p, q | 0 <= p < q < |t| ensures t[p] < t[q] { assert s[p + 1] < s[q + 1]; }
      StableSortTied(t, lt);
      var r := StableSort(t, lt);
      forall y | y in r ensures y in s && s[0] < y {
        assert y in multiset(r);
        var k :| 0 <= k < |t| && t[k] == y;
        assert s[0] < s[k + 1];
      }
      InsertTied(s[0], r, lt);
      InsertMultiset(s[0], r, lt);
    }
  }

  /** When exactly the first `k` elements satisfy `p`, the count is `k`. */
  lemma {:induction false} CountPrefix<T>(s: seq<T>, p: T -> bool, k: nat)
    requires k <= |s|
    requires forall q :: 0 <= q < |s| ==> (p(s[q]) <==> q < k)
    ensures Count(s, p) == k
  {
    if s != [] {
      var t := s[1..];
      assert forall q :: 0 <= q < |t| ==> t[q] == s[q + 1];
      CountPrefix(t, p, if k == 0 then 0 else k - 1);
    }
  }
}
