/** Sequence and map helpers shared by the usage order and the store. */
module Collections {
  import opened Wrappers

  /** No element occurs twice. */
  ghost predicate Distinct<T>(s: seq<T>) {
    forall i, j :: 0 <= i < j < |s| ==> s[i] != s[j]
  }

  /** The elements of `s`, as a set. */
  function Elems<T>(s: seq<T>): set<T> {
    set x | x in s
  }

  /** A non-empty sequence is its head before its tail. */
  lemma Split<T>(s: seq<T>)
    requires s != []
    ensures s == [s[0]] + s[1..]
    ensures Elems(s) == {s[0]} + Elems(s[1..])
    ensures Distinct(s) <==> s[0] !in s[1..] && Distinct(s[1..])
  {
    Cons(s[0], s[1..]);
  }

  /** What putting one element in front does to the elements and to distinctness. */
  lemma Cons<T>(a: T, t: seq<T>)
    ensures Elems([a] + t) == {a} + Elems(t)
    ensures Distinct([a] + t) <==> a !in t && Distinct(t)
  {
    var s := [a] + t;
    if a in t {
      var j :| 0 <= j < |t| && t[j] == a;
      assert s[0] == s[j + 1];
    }
    if Distinct(s) {
      forall i, j | 0 <= i < j < |t| ensures t[i] != t[j] {
        assert t[i] == s[i + 1] && t[j] == s[j + 1];
      }
    }
    if a !in t && Distinct(t) {
      forall i, j | 0 <= i < j < |s| ensures s[i] != s[j] {
        if i > 0 {
          assert s[i] == t[i - 1] && s[j] == t[j - 1];
        } else {
          assert s[j] == t[j - 1];
        }
      }
    }
  }

  /** A sequence without repetitions has as many elements as it has positions. */
  lemma {:induction false} DistinctCard<T>(s: seq<T>)
    requires Distinct(s)
    ensures |Elems(s)| == |s|
  {
    if s != [] {
      Split(s);
      DistinctCard(s[1..]);
    }
  }

  /** Moving an element of `s` to the end keeps the elements of `s`. */
  lemma MoveToEnd<T>(s: seq<T>, x: T)
    requires x in s
    ensures Elems(Without(s, x) + [x]) == Elems(s)
  {
    Snoc(Without(s, x), x);
  }

  /** The elements of `t + [a]`. */
  lemma Snoc<T>(t: seq<T>, a: T)
    ensures Elems(t + [a]) == Elems(t) + {a}
  {
    assert forall x :: x in t + [a] <==> x in t || x == a;
  }

  /** A sequence never has more distinct elements than positions. */
  lemma {:induction false} ElemsCard<T>(s: seq<T>)
    ensures |Elems(s)| <= |s|
  {
    if s != [] {
      Split(s);
      ElemsCard(s[1..]);
    }
  }

  /** A sequence lists no element twice exactly when it has as many distinct
      elements as positions. */
  lemma {:induction false} DistinctIff<T>(s: seq<T>)
    ensures Distinct(s) <==> |Elems(s)| == |s|
  {
    if Distinct(s) {
      DistinctCard(s);
    } else if s != [] {
      Split(s);
      ElemsCard(s[1..]);
      if s[0] !in s[1..] {
        DistinctIff(s[1..]);
      }
    }
  }

  /** `s` with every occurrence of `x` taken out, the rest in their order. */
  function Without<T(==)>(s: seq<T>, x: T): (r: seq<T>)
    ensures Elems(r) == Elems(s) - {x}
    ensures x !in s ==> r == s
  {
    if s == [] then []
    else
      Split(s);
      var rest := Without(s[1..], x);
      if s[0] == x then rest
      else
        Cons(s[0], rest);
        [s[0]] + rest
  }

  /** The elements of `s` that lie in `keep`, in their order. */
  function Keep<T>(s: seq<T>, keep: set<T>): (r: seq<T>)
    ensures Elems(r) == Elems(s) * keep
  {
    if s == [] then []
    else
      Split(s);
      var rest := Keep(s[1..], keep);
      if s[0] in keep then
        Cons(s[0], rest);
        [s[0]] + rest
      else rest
  }

  /** In a sequence without repetitions the head is not repeated in the tail,
      and the tail has no repetitions either. */
  lemma HeadFresh<T>(s: seq<T>)
    requires s != [] && |Elems(s)| == |s|
    ensures s[0] !in s[1..] && |Elems(s[1..])| == |s[1..]|
  {
    assert Elems(s) == {s[0]} + Elems(s[1..]) by {
      assert forall x :: x in s <==> x == s[0] || x in s[1..];
    }
    ElemsCard(s[1..]);
  }

  /** In a sequence without repetitions, taking out `s[i]` removes exactly position `i`. */
  lemma {:induction false} WithoutAt<T>(s: seq<T>, i: int)
    requires |Elems(s)| == |s| && 0 <= i < |s|
    ensures Without(s, s[i]) == s[..i] + s[i + 1..]
  {
    HeadFresh(s);
    if i == 0 {
      assert s[..0] + s[1..] == s[1..];
    } else {
      var t := s[1..];
      WithoutAt(t, i - 1);
      assert t[i - 1] == s[i];
      assert s[i] != s[0] by {
        assert s[i] in t;
      }
      DropOne(s, i);
    }
  }

  /** Removing position `i > 0` of `s` is keeping the head and removing
      position `i - 1` of the tail. */
  lemma DropOne<T>(s: seq<T>, i: int)
    requires 0 < i < |s|
    ensures s[..i] + s[i + 1..] == [s[0]] + (s[1..][..i - 1] + s[1..][i..])
  {
    assert s[..i] == [s[0]] + s[1..][..i - 1];
    assert s[i + 1..] == s[1..][i..];
  }

  /** Taking out one more element after a filter is filtering by the smaller set. */
  lemma {:induction false} KeepWithout<T>(s: seq<T>, keep: set<T>, x: T)
    ensures Without(Keep(s, keep), x) == Keep(s, keep - {x})
  {
    if s != [] {
      KeepWithout(s[1..], keep, x);
    }
  }

  /** Keeping `outer` and then a smaller `inner` is keeping `inner`. */
  lemma {:induction false} KeepKeep<T>(s: seq<T>, outer: set<T>, inner: set<T>)
    requires inner <= outer
    ensures Keep(Keep(s, outer), inner) == Keep(s, inner)
  {
    if s != [] {
      KeepKeep(s[1..], outer, inner);
    }
  }

  /** Filtering by a set that holds every element changes nothing. */
  lemma {:induction false} KeepAll<T>(s: seq<T>, keep: set<T>)
    requires forall y :: y in s ==> y in keep
    ensures Keep(s, keep) == s
  {
    if s != [] {
      KeepAll(s[1..], keep);
      assert s == [s[0]] + s[1..];
    }
  }

  /** What capacity eviction leaves of a usage order, oldest first: the
      front element dropped, again and again, while more than `limit`
      remain; all of it when there is no limit. */
  function Trim<T>(s: seq<T>, limit: Option<nat>): (r: seq<T>)
    ensures |r| <= |s|
    ensures limit.Some? ==> |r| == if limit.value < |s| then limit.value else |s|
    ensures limit.None? ==> r == s
    decreases |s|
  {
    if limit.Some? && limit.value < |s| then Trim(s[1..], limit) else s
  }

  /** Trimming keeps a suffix: the newest elements, in their order. */
  lemma {:induction false} TrimSuffix<T>(s: seq<T>, limit: Option<nat>)
    ensures Trim(s, limit) == s[|s| - |Trim(s, limit)|..]
  {
    if limit.Some? && limit.value < |s| {
      TrimSuffix(s[1..], limit);
      assert s[1..][|s| - 1 - |Trim(s, limit)|..] == s[|s| - |Trim(s, limit)|..];
    }
  }

  /** Trimming a non-empty sequence keeps its last element unless the limit is 0. */
  lemma TrimLast<T>(s: seq<T>, limit: Option<nat>)
    requires s != []
    ensures Trim(s, limit) == [] <==> limit == Some(0)
    ensures Trim(s, limit) != [] ==> Trim(s, limit)[|Trim(s, limit)| - 1] == s[|s| - 1]
  {
    TrimSuffix(s, limit);
  }

  /** Every key of `small` is in `big`, bound to the same value. */
  ghost predicate SubMap<K, V>(small: map<K, V>, big: map<K, V>) {
    small.Keys <= big.Keys && forall k :: k in small ==> small[k] == big[k]
  }
}
