/** The usage list of makeCache.js: a doubly-linked list threaded through the
    entries of the item map, whose `older`/`newer` fields hold keys, not
    pointers. A ghost sequence `order`, oldest first, is the list it encodes. */
module UsageOrder {
  import opened Wrappers
  import opened Collections

  /** What an entry holds for the caller: the value and, for an expiring
      entry, the time it expires at. */
  datatype Stored<V> = Stored(value: V, expireAt: Option<int>)

  /** An entry of the item map, with the keys of its neighbours in the usage
      list (`None` at either end, and when the entry is detached). */
  datatype Entry<K, V> = Entry(value: V, expireAt: Option<int>, older: Option<K>, newer: Option<K>) {
    function Payload(): Stored<V> {
      Stored(value, expireAt)
    }
  }

  /** The item map with the links left out: what the cache holds. */
  ghost function Payloads<K, V>(items: map<K, Entry<K, V>>): map<K, Stored<V>> {
    map k | k in items :: items[k].Payload()
  }

  /** The key at position `i` of `order`, if there is one. */
  function At<K>(order: seq<K>, i: int): Option<K> {
    if 0 <= i < |order| then Some(order[i]) else None
  }

  /** The entry at position `i` of `order` is in the map, its `older` is
      its predecessor in `order` and its `newer` its successor. */
  ghost predicate LinkedAt<K, V>(items: map<K, Entry<K, V>>, order: seq<K>, i: int) {
    && 0 <= i < |order|
    && order[i] in items
    && items[order[i]].older == At(order, i - 1)
    && items[order[i]].newer == At(order, i + 1)
  }

  /** The links of the entries listed in `order`, and the two ends, encode
      `order`: every listed entry is linked to its neighbours in `order`;
      `oldest` is the first, `newest` the last. Entries of `items` not in
      `order` are outside the list. No key is listed twice, stated as a count
      so that it stays cheap to carry around (`DistinctIff`). */
  ghost predicate Linked<K, V>(items: map<K, Entry<K, V>>, oldest: Option<K>, newest: Option<K>, order: seq<K>) {
    && |Elems(order)| == |order|
    && oldest == At(order, 0)
    && newest == At(order, |order| - 1)
    && (forall i :: 0 <= i < |order| ==> LinkedAt(items, order, i))
  }

  /** The list holds every key of the map, each once. */
  ghost predicate Threads<K, V>(items: map<K, Entry<K, V>>, oldest: Option<K>, newest: Option<K>, order: seq<K>) {
    Linked(items, oldest, newest, order) && Elems(order) == items.Keys
  }

  /** The ends of the list have no outer links: `oldest` has no `older`
      and `newest` has no `newer`; the list is empty exactly when there is
      no `oldest`, and exactly when there is no `newest`. */
  lemma EndsUnlinked<K, V>(items: map<K, Entry<K, V>>, oldest: Option<K>, newest: Option<K>, order: seq<K>)
    requires Linked(items, oldest, newest, order)
    ensures oldest.None? <==> order == []
    ensures newest.None? <==> order == []
    ensures oldest.Some? ==> oldest.value in items && items[oldest.value].older.None?
    ensures newest.Some? ==> newest.value in items && items[newest.value].newer.None?
  {
    if order != [] {
      assert LinkedAt(items, order, 0);
      assert LinkedAt(items, order, |order| - 1);
    }
  }

  /** A listed entry is linked to a neighbour unless it is all of the list,
      and then it is the newest end; the newest end is listed. */
  lemma ListedEntry<K, V>(items: map<K, Entry<K, V>>, oldest: Option<K>, newest: Option<K>, order: seq<K>, key: K)
    requires Linked(items, oldest, newest, order)
    ensures key in order ==> key in items
    ensures key in order ==> items[key].older.Some? || items[key].newer.Some? || newest == Some(key)
    ensures newest == Some(key) ==> key in order
  {
    if key in order {
      var i :| 0 <= i < |order| && order[i] == key;
      assert LinkedAt(items, order, i);
    }
    if newest == Some(key) {
      assert order[|order| - 1] == key;
    }
  }

  /** The keys met by following `newer` links from `from`, for at most `fuel` steps. */
  function Walk<K, V>(items: map<K, Entry<K, V>>, from: Option<K>, fuel: nat): seq<K>
    decreases fuel
  {
    if fuel == 0 || from.None? || from.value !in items then []
    else [from.value] + Walk(items, items[from.value].newer, fuel - 1)
  }

  /** Following `newer` links from position `i` visits the rest of the order. */
  lemma {:induction false} WalkSuffix<K, V>(items: map<K, Entry<K, V>>, oldest: Option<K>, newest: Option<K>,
                                            order: seq<K>, i: int, fuel: nat)
    requires Linked(items, oldest, newest, order)
    requires 0 <= i <= |order| && fuel >= |order| - i
    ensures Walk(items, At(order, i), fuel) == order[i..]
    decreases |order| - i
  {
    if i < |order| {
      assert LinkedAt(items, order, i);
      WalkSuffix(items, oldest, newest, order, i + 1, fuel - 1);
      assert order[i..] == [order[i]] + order[i + 1..];
    }
  }

  /** Walking from `oldest` along `newer` links visits the keys of the list in
      order, each once, and stops after the last, `newest`, however much fuel
      it is given. */
  lemma {:induction false} WalkFollowsOrder<K, V>(items: map<K, Entry<K, V>>, oldest: Option<K>, newest: Option<K>,
                                                  order: seq<K>, fuel: nat)
    requires Threads(items, oldest, newest, order)
    requires fuel >= |order|
    ensures Walk(items, oldest, fuel) == order
    ensures Elems(Walk(items, oldest, fuel)) == items.Keys
    ensures order != [] ==> Some(Walk(items, oldest, fuel)[|order| - 1]) == newest
  {
    WalkSuffix(items, oldest, newest, order, 0, fuel);
    assert order[0..] == order;
  }

  /** The links are a function of the order: two maps with the same contents
      that both thread the same order are the same map, with the same ends. */
  lemma {:induction false} LinksDetermined<K, V>(a: map<K, Entry<K, V>>, oldestA: Option<K>, newestA: Option<K>,
                                                 b: map<K, Entry<K, V>>, oldestB: Option<K>, newestB: Option<K>,
                                                 order: seq<K>)
    requires Threads(a, oldestA, newestA, order) && Threads(b, oldestB, newestB, order)
    requires Payloads(a) == Payloads(b)
    ensures a == b && oldestA == oldestB && newestA == newestB
  {
    forall k | k in a ensures k in b && a[k] == b[k] {
      assert k in Elems(order);
      var i :| 0 <= i < |order| && order[i] == k;
      assert LinkedAt(a, order, i) && LinkedAt(b, order, i);
      assert Payloads(a)[k] == Payloads(b)[k];
    }
  }

  /** Linking a detached entry in after `newest` keeps the list well formed,
      with the entry as its new newest element. */
  lemma LinkedAppend<K, V>(items: map<K, Entry<K, V>>, oldest: Option<K>, newest: Option<K>, order: seq<K>,
                           key: K, items': map<K, Entry<K, V>>, oldest': Option<K>)
    requires Linked(items, oldest, newest, order)
    requires key in items && key !in order
    requires items[key].older.None? && items[key].newer.None?
    requires order != [] ==> LinkedAt(items, order, |order| - 1)
    requires order == [] ==> items' == items && oldest' == Some(key)
    requires order != [] ==>
      && oldest' == oldest
      && items' == items[key := items[key].(older := newest)][newest.value := items[newest.value].(newer := Some(key))]
    ensures Linked(items', oldest', Some(key), order + [key])
  {
    DistinctIff(order);
    var o := order + [key];
    var n := |order|;
    forall i, j | 0 <= i < j < |o| ensures o[i] != o[j] {
      if j == n {
        assert o[i] == order[i];
      } else {
        assert o[i] == order[i] && o[j] == order[j];
      }
    }
    forall i | 0 <= i < |o| ensures LinkedAt(items', o, i) {
      if i == n {
        assert o[i] == key;
        if n > 0 {
          assert LinkedAt(items, order, n - 1);
        }
      } else {
        assert o[i] == order[i] && order[i] != key;
        assert LinkedAt(items, order, i);
        if i < n - 1 {
          assert order[i] != order[n - 1];
        }
      }
    }
    DistinctIff(o);
  }

  /** `items'` is `items` with the entry at position `i` of `order` unlinked:
      its neighbours joined to each other and its own links cleared. */
  ghost predicate DetachedAt<K, V>(items: map<K, Entry<K, V>>, items': map<K, Entry<K, V>>, order: seq<K>, i: int)
    requires 0 <= i < |order|
  {
    && items'.Keys == items.Keys
    && forall k :: k in items ==>
      items'[k] == (
        if k == order[i] then items[k].(older := None, newer := None)
        else if i > 0 && k == order[i - 1] then items[k].(newer := At(order, i + 1))
        else if i + 1 < |order| && k == order[i + 1] then items[k].(older := At(order, i - 1))
        else items[k])
  }

  /** The three updates of the source's `removeUse` unlink the entry at position `i`. */
  lemma DetachSteps<K, V>(items: map<K, Entry<K, V>>, oldest: Option<K>, newest: Option<K>, order: seq<K>, i: int,
                          items1: map<K, Entry<K, V>>, items2: map<K, Entry<K, V>>, items': map<K, Entry<K, V>>,
                          oldest': Option<K>, newest': Option<K>)
    requires Linked(items, oldest, newest, order) && 0 <= i < |order|
    requires LinkedAt(items, order, i)
    requires i > 0 ==> LinkedAt(items, order, i - 1)
    requires i + 1 < |order| ==> LinkedAt(items, order, i + 1)
    requires var item := items[order[i]];
      && (item.older.Some? ==> items1 == items[item.older.value := items[item.older.value].(newer := item.newer)] && oldest' == oldest)
      && (item.older.None? ==> items1 == items && oldest' == item.newer)
      && (item.newer.Some? ==> items2 == items1[item.newer.value := items1[item.newer.value].(older := item.older)] && newest' == newest)
      && (item.newer.None? ==> items2 == items1 && newest' == item.older)
      && items' == items2[order[i] := item.(older := None, newer := None)]
    ensures DetachedAt(items, items', order, i)
    ensures oldest' == (if i == 0 then At(order, 1) else oldest)
    ensures newest' == (if i == |order| - 1 then At(order, i - 1) else newest)
  {
    DistinctIff(order);
    assert LinkedAt(items, order, i);
    if i > 0 {
      assert order[i - 1] != order[i];
    }
    if i + 1 < |order| {
      assert order[i + 1] != order[i];
    }
    if 0 < i && i + 1 < |order| {
      assert order[i - 1] != order[i + 1];
    }
  }

  /** Unlinking the entry at position `i` leaves the list without it. */
  lemma LinkedDetach<K, V>(items: map<K, Entry<K, V>>, oldest: Option<K>, newest: Option<K>, order: seq<K>, i: int,
                           items': map<K, Entry<K, V>>)
    requires Linked(items, oldest, newest, order) && 0 <= i < |order|
    requires DetachedAt(items, items', order, i)
    ensures Linked(items', if i == 0 then At(order, 1) else oldest,
                   if i == |order| - 1 then At(order, i - 1) else newest,
                   order[..i] + order[i + 1..])
  {
    var o := order[..i] + order[i + 1..];
    assert |o| == |order| - 1;
    assert |Elems(o)| == |o| by {
      WithoutAt(order, i);
      assert order[i] in Elems(order);
      assert Elems(order) == Elems(o) + {order[i]};
    }
    assert At(o, 0) == if i == 0 then At(order, 1) else oldest;
    assert At(o, |o| - 1) == if i == |order| - 1 then At(order, i - 1) else newest;
    forall p | 0 <= p < |o| ensures LinkedAt(items', o, p) {
      LinkedDetachAt(items, oldest, newest, order, i, items', p);
    }
  }

  /** The links of the entry at position `p` of the list after unlinking position `i`. */
  lemma LinkedDetachAt<K, V>(items: map<K, Entry<K, V>>, oldest: Option<K>, newest: Option<K>, order: seq<K>, i: int,
                             items': map<K, Entry<K, V>>, p: int)
    requires Linked(items, oldest, newest, order) && 0 <= i < |order|
    requires DetachedAt(items, items', order, i)
    requires 0 <= p < |order| - 1
    ensures LinkedAt(items', order[..i] + order[i + 1..], p)
  {
    var o := order[..i] + order[i + 1..];
    DistinctIff(order);
    assert |o| == |order| - 1;
    var j := if p < i then p else p + 1;
    assert o[p] == order[j];
    assert order[j] != order[i];
    assert LinkedAt(items, order, j);
    if p > 0 {
      assert o[p - 1] == if p - 1 < i then order[p - 1] else order[p];
    }
    if p + 1 < |o| {
      assert o[p + 1] == if p + 1 < i then order[p + 1] else order[p + 2];
    }
    if i > 0 && j != i - 1 {
      assert order[j] != order[i - 1];
    }
    if i + 1 < |order| && j != i + 1 {
      assert order[j] != order[i + 1];
    }
  }

  /** Maps whose entries hold the same contents have the same payloads. */
  lemma PayloadsEqual<K, V>(a: map<K, Entry<K, V>>, b: map<K, Entry<K, V>>)
    requires a.Keys == b.Keys
    requires forall k :: k in a ==> a[k].Payload() == b[k].Payload()
    ensures Payloads(a) == Payloads(b)
  {
  }

  /** Unlinking changes links only: the contents stay, and entries outside
      the list are untouched. */
  lemma DetachKeepsContents<K, V>(items: map<K, Entry<K, V>>, oldest: Option<K>, newest: Option<K>, order: seq<K>, i: int,
                                   items': map<K, Entry<K, V>>)
    requires Linked(items, oldest, newest, order) && 0 <= i < |order|
    requires DetachedAt(items, items', order, i)
    ensures Payloads(items') == Payloads(items)
    ensures forall k :: k in items && k !in order ==> items'[k] == items[k]
  {
    PayloadsEqual(items', items);
  }

  /** The neighbours a listed entry links to are themselves stored. */
  lemma NeighboursStored<K, V>(items: map<K, Entry<K, V>>, oldest: Option<K>, newest: Option<K>, order: seq<K>, key: K)
    requires Linked(items, oldest, newest, order) && key in order
    ensures key in items
    ensures items[key].older.Some? ==> items[key].older.value in items
    ensures items[key].newer.Some? ==> items[key].newer.value in items
  {
    var i :| 0 <= i < |order| && order[i] == key;
    assert LinkedAt(items, order, i);
    assert i > 0 ==> LinkedAt(items, order, i - 1);
    assert i + 1 < |order| ==> LinkedAt(items, order, i + 1);
  }

  /** The three updates of the source's `removeUse`, applied to the entry of
      `key`, unlink it: the list threads the remaining keys in their order,
      the entry's own links are cleared, no contents change, and entries
      off the list are untouched. */
  lemma Unlink<K, V>(items: map<K, Entry<K, V>>, oldest: Option<K>, newest: Option<K>, order: seq<K>, key: K,
                     items1: map<K, Entry<K, V>>, items2: map<K, Entry<K, V>>, items': map<K, Entry<K, V>>,
                     oldest': Option<K>, newest': Option<K>)
    requires Linked(items, oldest, newest, order) && key in items && key in order
    requires var item := items[key];
      && (item.older.Some? ==> item.older.value in items && items1 == items[item.older.value := items[item.older.value].(newer := item.newer)] && oldest' == oldest)
      && (item.older.None? ==> items1 == items && oldest' == item.newer)
      && (item.newer.Some? ==> item.newer.value in items1 && items2 == items1[item.newer.value := items1[item.newer.value].(older := item.older)] && newest' == newest)
      && (item.newer.None? ==> items2 == items1 && newest' == item.older)
      && items' == items2[key := item.(older := None, newer := None)]
    ensures Linked(items', oldest', newest', Without(order, key))
    ensures items'.Keys == items.Keys && Payloads(items') == Payloads(items)
    ensures items'[key].older.None? && items'[key].newer.None?
    ensures forall k :: k in items && k !in order ==> items'[k] == items[k]
  {
    var i :| 0 <= i < |order| && order[i] == key;
    assert LinkedAt(items, order, i);
    assert i > 0 ==> LinkedAt(items, order, i - 1);
    assert i + 1 < |order| ==> LinkedAt(items, order, i + 1);
    DetachSteps(items, oldest, newest, order, i, items1, items2, items', oldest', newest');
    LinkedDetach(items, oldest, newest, order, i, items');
    DetachKeepsContents(items, oldest, newest, order, i, items');
    WithoutAt(order, i);
  }

  /** Deleting the one entry the list leaves out leaves a map the list
      covers, with that key's contents gone and one key fewer. */
  lemma DeleteDetached<K, V>(items: map<K, Entry<K, V>>, oldest: Option<K>, newest: Option<K>, order: seq<K>, key: K)
    requires Linked(items, oldest, newest, order) && key in items
    requires Elems(order) == items.Keys - {key}
    ensures Threads(items - {key}, oldest, newest, order)
    ensures Payloads(items - {key}) == Payloads(items) - {key}
    ensures |items - {key}| == |items| - 1
  {
    var items' := items - {key};
    forall i | 0 <= i < |order| ensures LinkedAt(items', order, i) {
      assert order[i] in Elems(order) && LinkedAt(items, order, i);
    }
    assert items.Keys == items'.Keys + {key};
    assert |items| == |items.Keys| && |items'| == |items'.Keys|;
  }

  /** Storing a detached entry under a key the list leaves out keeps the
      list intact, with the stored contents replaced and the count of keys
      grown by one when the key is new. */
  lemma StoreDetached<K, V>(items: map<K, Entry<K, V>>, oldest: Option<K>, newest: Option<K>, order: seq<K>,
                            key: K, e: Entry<K, V>)
    requires Linked(items, oldest, newest, order)
    requires Elems(order) == items.Keys - {key}
    ensures Linked(items[key := e], oldest, newest, order)
    ensures Payloads(items[key := e]) == Payloads(items)[key := e.Payload()]
    ensures |items[key := e]| == if key in items then |items| else |items| + 1
    ensures Elems(order + [key]) == items[key := e].Keys
  {
    var items' := items[key := e];
    forall i | 0 <= i < |order| ensures LinkedAt(items', order, i) {
      assert order[i] in Elems(order) && LinkedAt(items, order, i);
    }
    StoredKeys(items, order, key, e);
    StoredPayloads(items, key, e);
  }

  /** Storing an entry replaces the contents under its key and no others. */
  lemma StoredPayloads<K, V>(items: map<K, Entry<K, V>>, key: K, e: Entry<K, V>)
    ensures Payloads(items[key := e]) == Payloads(items)[key := e.Payload()]
  {
    var p, q := Payloads(items[key := e]), Payloads(items)[key := e.Payload()];
    assert p.Keys == q.Keys;
    forall k | k in p ensures p[k] == q[k] {
    }
  }

  /** The keys and their count after storing under a key that `order` leaves out. */
  lemma StoredKeys<K, V>(items: map<K, Entry<K, V>>, order: seq<K>, key: K, e: Entry<K, V>)
    requires Elems(order) == items.Keys - {key}
    ensures |items[key := e]| == if key in items then |items| else |items| + 1
    ensures Elems(order + [key]) == items[key := e].Keys
  {
    Snoc(order, key);
    assert (items.Keys - {key}) + {key} == items[key := e].Keys;
  }
}
