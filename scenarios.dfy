/** The behaviour the repository's own tests (tests/tests.js) expect, stated
    as client methods of the model whose results are proved. Keys and values
    are the tests' one-letter strings, written as characters. */
module Scenarios {
  import opened Wrappers
  import opened Collections
  import opened Epochs
  import opened UsageOrder
  import opened MakeCache

  type Data = map<char, Stored<char>>

  /** An entry that never expires. */
  function Plain(v: char): Stored<char> {
    Stored(v, None)
  }

  /** The part of `data` whose keys are in `keys`. */
  function Restrict(data: Data, keys: set<char>): (r: Data)
    ensures r.Keys == data.Keys * keys
    ensures forall k :: k in r ==> r[k] == data[k]
  {
    map k | k in data && k in keys :: data[k]
  }

  /** The expiry time `set` gives an entry stored at `now` with
      `{expireIn: expireIn}` when the module has no default time to live. */
  function Expiry(expireIn: Option<int>, now: int): Option<int> {
    if Truthy(expireIn) then Some(now + expireIn.value) else None
  }

  /** What `get` returns for `key` at `now`, given the stored `data`. */
  function Lookup(data: Data, key: char, now: int): Option<char> {
    if key in data && !Due(data[key], now) then Some(data[key].value) else None
  }

  /** The cache is valid and holds `data`. */
  ghost predicate Stores(c: Cache<char, char>, data: Data)
    reads c
  {
    c.Valid() && c.Data() == data
  }

  /** The cache is valid and holds `data`, with its uses in `order`. */
  ghost predicate Holds(c: Cache<char, char>, order: seq<char>, data: Data)
    reads c
  {
    c.Valid() && c.order == order && c.Data() == data
  }

  // The public operations, restated in terms of the values the cache holds.

  method SetStep(c: Cache<char, char>, key: char, val: char, expireIn: Option<int>, now: int,
                 ghost order: seq<char>, ghost data: Data)
    requires Holds(c, order, data) && c.moduleDefaultExpireIn == None
    requires expireIn.Some? ==> expireIn.value >= 0
    modifies c
    ensures Holds(c, Trim(Without(order, key) + [key], c.limit),
                  Restrict(data[key := Stored(val, Expiry(expireIn, now))],
                           Elems(Trim(Without(order, key) + [key], c.limit))))
    ensures c.evictedEpoch == old(c.evictedEpoch)
    ensures c.pendingEvictions == if Expiry(expireIn, now).Some?
                                  then Schedule(old(c.pendingEvictions), c.GetEpoch(Expiry(expireIn, now).value), key)
                                  else old(c.pendingEvictions)
  {
    assert c.ExpiryFor(Fields(expireIn), now) == Expiry(expireIn, now);
    var r := c.Set(key, val, Fields(expireIn), now);
    Restricted(c.items, c.order, data[key := Stored(val, Expiry(expireIn, now))]);
  }

  /** Contents that are part of `big` and are listed by `order` are `big`
      restricted to the listed keys. */
  lemma Restricted(items: map<char, Entry<char, char>>, order: seq<char>, big: Data)
    requires SubMap(Payloads(items), big) && Elems(order) == items.Keys
    ensures Payloads(items) == Restrict(big, Elems(order))
  {
    assert Payloads(items).Keys == items.Keys;
  }

  method GetStep(c: Cache<char, char>, key: char, now: int, ghost order: seq<char>, ghost data: Data)
    returns (r: Option<char>)
    requires Holds(c, order, data)
    modifies c
    ensures r == Lookup(data, key, now)
    ensures key !in data ==> Holds(c, order, data)
    ensures key in data && Due(data[key], now) ==> Holds(c, Without(order, key), data - {key})
    ensures key in data && !Due(data[key], now) ==> Holds(c, Without(order, key) + [key], data)
  {
    r := c.Get(key, now);
  }

  method RemoveStep(c: Cache<char, char>, key: char, ghost order: seq<char>, ghost data: Data)
    requires Holds(c, order, data)
    modifies c
    ensures Holds(c, Without(order, key), data - {key})
  {
    c.Remove(key);
    assert key !in data ==> data - {key} == data;
  }

  method CountStep(c: Cache<char, char>, ghost order: seq<char>, ghost data: Data) returns (n: nat)
    requires Holds(c, order, data)
    ensures n == |data|
  {
    n := c.CountSize();
    assert c.items.Keys == c.Data().Keys;
    assert |c.items| == |c.items.Keys| == |data.Keys|;
  }

  method SweepStep(c: Cache<char, char>, now: int, ghost data: Data)
    requires Stores(c, data) && c.inception <= now
    modifies c
    ensures c.Valid() && SubMap(c.Data(), data) && OnlyDueGone(data, c.Data(), now)
    ensures forall e :: c.SweptAt(old(c.evictedEpoch), now, e) && e in old(c.pendingEvictions) ==>
      DueGone(data, old(c.pendingEvictions)[e], c.Data(), now)
    ensures forall k :: k in data && k !in c.Data() ==>
      exists e :: c.SweptAt(old(c.evictedEpoch), now, e) && e in old(c.pendingEvictions) && k in old(c.pendingEvictions)[e]
  {
    c.EvictExpireds(now);
  }

  method ClearStep(c: Cache<char, char>)
    requires c.evictionInterval > 0
    modifies c
    ensures Holds(c, [], map[])
  {
    c.Clear();
  }

  /** A key that is not stored yet becomes the newest use; no key is
      evicted while the limit is not exceeded. */
  lemma Appended(order: seq<char>, key: char, limit: Option<nat>)
    requires key !in order && (limit.Some? ==> |order| < limit.value)
    ensures Trim(Without(order, key) + [key], limit) == order + [key]
  {
  }

  /** A key that is not stored yet, set when the cache is full, evicts the
      oldest use. */
  lemma Evicted(order: seq<char>, key: char, limit: Option<nat>)
    requires key !in order && order != [] && limit == Some(|order|)
    ensures Trim(Without(order, key) + [key], limit) == order[1..] + [key]
  {
    assert (order + [key])[1..] == order[1..] + [key];
  }

  /** The data a `set` leaves, when the keys it keeps are the old ones
      minus `gone`, plus `key`. */
  lemma Kept(data: Data, key: char, s: Stored<char>, keys: set<char>, gone: set<char>)
    requires keys == data.Keys - gone + {key}
    ensures Restrict(data[key := s], keys) == (data - gone)[key := s]
  {
  }

  /** Taking out the head of a sequence leaves its tail when the head does
      not recur. */
  lemma Rotated(x: char, t: seq<char>)
    requires x !in t
    ensures Without([x] + t, x) == t
  {
    assert ([x] + t)[1..] == t;
  }

  // The "cache" test (tests/tests.js, lines 7-40), phase by phase. Each
  // phase first states, in a lemma about plain values, what the outcome of
  // each of its steps evaluates to.

  const A: Data := map['a' := Plain('1')]
  const AB: Data := map['a' := Plain('1'), 'b' := Plain('2')]
  const ABC: Data := map['a' := Plain('1'), 'b' := Plain('2'), 'c' := Plain('3')]
  const BCD: Data := map['b' := Plain('2'), 'c' := Plain('3'), 'd' := Plain('4')]
  const CD: Data := map['c' := Plain('3'), 'd' := Plain('4')]

  /** The "cache" test: a cache limited to three keys drops the least
      recently used one, `remove` drops one key and `clear` drops them all.
      `observed` holds the results of the `get` calls in order, `sizes`
      those of the `countSize` calls. No entry expires, so the clock stands still. */
  method LimitScenario() returns (observed: seq<Option<char>>, sizes: seq<nat>)
    ensures observed == [None, Some('1'), None, Some('2'), Some('3'), Some('4'), None, Some('3'), None, None]
    ensures sizes == [0, 1, 3, 3, 2, 0]
  {
    var c, o1, s1 := FirstKey();
    var s2 := FillUp(c);
    var o2 := ReadBack(c);
    var o3, s3 := RemoveOne(c);
    var o4, s4 := ClearAll(c);
    LimitTotals();
    observed := o1 + o2 + o3 + o4;
    sizes := s1 + s2 + s3 + s4;
  }

  lemma LimitTotals()
    ensures [None, Some('1')] + [None, Some('2'), Some('3'), Some('4')] + [None, Some('3')] + [None, None]
         == [None, Some('1'), None, Some('2'), Some('3'), Some('4'), None, Some('3'), None, None]
    ensures [0, 1] + [3, 3] + [2] + [0] == [0, 1, 3, 3, 2, 0]
  {
  }

  lemma FirstKeyFacts()
    ensures Lookup(map[], 'a', 0) == None
    ensures Trim(Without([], 'a') + ['a'], Some(3)) == ['a']
    ensures Restrict(map[]['a' := Stored('1', Expiry(None, 0))], Elems(['a'])) == A
    ensures |A| == 1 && 'a' in A && !Due(A['a'], 0) && Lookup(A, 'a', 0) == Some('1')
    ensures Without(['a'], 'a') + ['a'] == ['a']
  {
    Appended([], 'a', Some(3));
    Rotated('a', []);
  }

  /** An empty cache has size 0 and no 'a'; once 'a' is set it has size 1 and returns it. */
  method FirstKey() returns (c: Cache<char, char>, observed: seq<Option<char>>, sizes: seq<nat>)
    ensures fresh(c) && c.limit == Some(3) && c.moduleDefaultExpireIn == None
    ensures Holds(c, ['a'], A)
    ensures observed == [None, Some('1')] && sizes == [0, 1]
  {
    FirstKeyFacts();
    c := new Cache(Some(3), None, None, 0);
    assert c.Data() == map[];
    var n0 := CountStep(c, [], map[]);
    var r0 := GetStep(c, 'a', 0, [], map[]);
    SetStep(c, 'a', '1', None, 0, [], map[]);
    var n1 := CountStep(c, ['a'], A);
    var r1 := GetStep(c, 'a', 0, ['a'], A);
    observed, sizes := [r0, r1], [n0, n1];
  }

  lemma SetBFacts()
    ensures Trim(Without(['a'], 'b') + ['b'], Some(3)) == ['a', 'b']
    ensures Restrict(A['b' := Stored('2', Expiry(None, 0))], Elems(['a', 'b'])) == AB
  {
    Appended(['a'], 'b', Some(3));
    Kept(A, 'b', Plain('2'), Elems(['a', 'b']), {});
  }

  lemma SetCFacts()
    ensures Trim(Without(['a', 'b'], 'c') + ['c'], Some(3)) == ['a', 'b', 'c']
    ensures Restrict(AB['c' := Stored('3', Expiry(None, 0))], Elems(['a', 'b', 'c'])) == ABC
    ensures |ABC| == 3
  {
    Appended(['a', 'b'], 'c', Some(3));
    assert Elems(['a', 'b', 'c']) == {'a', 'b', 'c'};
    assert AB.Keys == {'a', 'b'};
    Kept(AB, 'c', Plain('3'), {'a', 'b', 'c'}, {});
    assert (AB - {})['c' := Plain('3')] == ABC;
  }

  lemma SetDFacts()
    ensures Trim(Without(['a', 'b', 'c'], 'd') + ['d'], Some(3)) == ['b', 'c', 'd']
    ensures Restrict(ABC['d' := Stored('4', Expiry(None, 0))], Elems(['b', 'c', 'd'])) == BCD
    ensures |BCD| == 3
  {
    Evicted(['a', 'b', 'c'], 'd', Some(3));
    assert Elems(['b', 'c', 'd']) == {'b', 'c', 'd'};
    assert ABC.Keys == {'a', 'b', 'c'};
    Kept(ABC, 'd', Plain('4'), {'b', 'c', 'd'}, {'a'});
    assert (ABC - {'a'})['d' := Plain('4')] == BCD;
  }

  /** Setting 'b' and 'c' brings the size to 3; setting 'd' evicts 'a', the
      least recently used key, keeping the size at the limit. */
  method FillUp(c: Cache<char, char>) returns (sizes: seq<nat>)
    requires c.limit == Some(3) && c.moduleDefaultExpireIn == None
    requires Holds(c, ['a'], A)
    modifies c
    ensures Stores(c, BCD)
    ensures sizes == [3, 3]
  {
    SetBFacts();
    SetCFacts();
    SetDFacts();
    SetStep(c, 'b', '2', None, 0, ['a'], A);
    SetStep(c, 'c', '3', None, 0, ['a', 'b'], AB);
    var n0 := CountStep(c, ['a', 'b', 'c'], ABC);
    SetStep(c, 'd', '4', None, 0, ['a', 'b', 'c'], ABC);
    var n1 := CountStep(c, ['b', 'c', 'd'], BCD);
    sizes := [n0, n1];
  }

  lemma ReadBackFacts()
    ensures 'a' !in BCD && Lookup(BCD, 'a', 0) == None
    ensures 'b' in BCD && !Due(BCD['b'], 0) && Lookup(BCD, 'b', 0) == Some('2')
    ensures 'c' in BCD && !Due(BCD['c'], 0) && Lookup(BCD, 'c', 0) == Some('3')
    ensures 'd' in BCD && !Due(BCD['d'], 0) && Lookup(BCD, 'd', 0) == Some('4')
  {
  }

  /** The evicted 'a' is gone; the three most recently used keys remain. */
  method ReadBack(c: Cache<char, char>) returns (observed: seq<Option<char>>)
    requires Stores(c, BCD)
    modifies c
    ensures Stores(c, BCD)
    ensures observed == [None, Some('2'), Some('3'), Some('4')]
  {
    ReadBackFacts();
    var r0 := GetStep(c, 'a', 0, c.order, BCD);
    var r1 := GetStep(c, 'b', 0, c.order, BCD);
    var r2 := GetStep(c, 'c', 0, c.order, BCD);
    var r3 := GetStep(c, 'd', 0, c.order, BCD);
    observed := [r0, r1, r2, r3];
  }

  lemma RemoveOneFacts()
    ensures BCD - {'b'} == CD && |CD| == 2
    ensures 'b' !in CD && Lookup(CD, 'b', 0) == None
    ensures 'c' in CD && !Due(CD['c'], 0) && Lookup(CD, 'c', 0) == Some('3')
  {
  }

  /** A removed key reads as absent, the others stay, and the size drops by one. */
  method RemoveOne(c: Cache<char, char>) returns (observed: seq<Option<char>>, sizes: seq<nat>)
    requires Stores(c, BCD)
    modifies c
    ensures Stores(c, CD)
    ensures observed == [None, Some('3')] && sizes == [2]
  {
    RemoveOneFacts();
    RemoveStep(c, 'b', c.order, BCD);
    var r0 := GetStep(c, 'b', 0, c.order, CD);
    var r1 := GetStep(c, 'c', 0, c.order, CD);
    var n := CountStep(c, c.order, CD);
    observed, sizes := [r0, r1], [n];
  }

  /** After `clear` no key remains and the size is 0. */
  method ClearAll(c: Cache<char, char>) returns (observed: seq<Option<char>>, sizes: seq<nat>)
    requires c.evictionInterval > 0
    modifies c
    ensures Stores(c, map[])
    ensures observed == [None, None] && sizes == [0]
  {
    ClearStep(c);
    var r0 := GetStep(c, 'c', 0, [], map[]);
    var r1 := GetStep(c, 'd', 0, [], map[]);
    var n := CountStep(c, [], map[]);
    observed, sizes := [r0, r1], [n];
  }

  // The "cache expiration" test (tests/tests.js, lines 42-55), with the
  // 200 ms wait made explicit in the clock.

  const E: Data := map['e' := Stored('e', Some(100))]

  lemma ExpiryFacts()
    ensures Trim(Without([], 'e') + ['e'], None) == ['e']
    ensures Restrict(map[]['e' := Stored('e', Expiry(Some(100), 0))], Elems(['e'])) == E
    ensures |E| == 1 && 'e' in E
    ensures !Due(E['e'], 0) && Lookup(E, 'e', 0) == Some('e') && Without(['e'], 'e') + ['e'] == ['e']
    ensures Due(E['e'], 200) && Lookup(E, 'e', 200) == None && Without(['e'], 'e') == [] && E - {'e'} == map[]
  {
    Appended([], 'e', None);
    Rotated('e', []);
  }

  /** An entry set at time 0 to expire in 100 ms is returned at once, is
      gone when read at 200 ms, and the cache is then empty. */
  method ExpiryScenario() returns (observed: seq<Option<char>>, sizes: seq<nat>)
    ensures observed == [Some('e'), None] && sizes == [1, 0]
  {
    ExpiryFacts();
    var c := new Cache(None, None, None, 0);
    assert c.Data() == map[];
    SetStep(c, 'e', 'e', Some(100), 0, [], map[]);
    var n0 := CountStep(c, ['e'], E);
    var r0 := GetStep(c, 'e', 0, ['e'], E);
    var r1 := GetStep(c, 'e', 200, ['e'], E);
    var n1 := CountStep(c, [], map[]);
    observed, sizes := [r0, r1], [n0, n1];
  }

  // A read refreshes a key: in a cache limited to two keys, reading the
  // older key before a third is set makes the other one the one evicted.

  const XY: Data := map['x' := Plain('1'), 'y' := Plain('2')]
  const XZ: Data := map['x' := Plain('1'), 'z' := Plain('3')]

  lemma RecencyFacts()
    ensures Trim(Without([], 'x') + ['x'], Some(2)) == ['x']
    ensures Restrict(map[]['x' := Stored('1', Expiry(None, 0))], Elems(['x'])) == map['x' := Plain('1')]
    ensures Trim(Without(['x'], 'y') + ['y'], Some(2)) == ['x', 'y']
    ensures Restrict(map['x' := Plain('1')]['y' := Stored('2', Expiry(None, 0))], Elems(['x', 'y'])) == XY
    ensures 'x' in XY && !Due(XY['x'], 0) && Lookup(XY, 'x', 0) == Some('1')
    ensures Without(['x', 'y'], 'x') + ['x'] == ['y', 'x']
  {
    Appended([], 'x', Some(2));
    Appended(['x'], 'y', Some(2));
    Rotated('x', ['y']);
  }

  lemma RecencyEvictFacts()
    ensures Trim(Without(['y', 'x'], 'z') + ['z'], Some(2)) == ['x', 'z']
    ensures Restrict(XY['z' := Stored('3', Expiry(None, 0))], Elems(['x', 'z'])) == XZ
    ensures Lookup(XZ, 'y', 0) == None && 'y' !in XZ
    ensures 'x' in XZ && !Due(XZ['x'], 0) && Lookup(XZ, 'x', 0) == Some('1')
  {
    Evicted(['y', 'x'], 'z', Some(2));
    assert Elems(['x', 'z']) == {'x', 'z'};
    Kept(XY, 'z', Plain('3'), {'x', 'z'}, {'y'});
    assert (XY - {'y'})['z' := Plain('3')] == XZ;
  }

  /** Set 'x' then 'y' in a cache limited to two keys, read 'x', set 'z':
      'y', not 'x', is evicted. */
  method RecencyScenario() returns (observed: seq<Option<char>>)
    ensures observed == [Some('1'), None, Some('1')]
  {
    var c, r0 := ReadOlder();
    RecencyEvictFacts();
    SetStep(c, 'z', '3', None, 0, ['y', 'x'], XY);
    var r1 := GetStep(c, 'y', 0, c.order, XZ);
    var r2 := GetStep(c, 'x', 0, c.order, XZ);
    observed := [r0, r1, r2];
  }

  /** Set 'x' then 'y' in a cache limited to two keys; reading 'x' returns
      it and makes 'y' the least recently used. */
  method ReadOlder() returns (c: Cache<char, char>, observed: Option<char>)
    ensures fresh(c) && c.limit == Some(2) && c.moduleDefaultExpireIn == None
    ensures Holds(c, ['y', 'x'], XY) && observed == Some('1')
  {
    RecencyFacts();
    c := new Cache(Some(2), None, None, 0);
    assert c.Data() == map[];
    SetStep(c, 'x', '1', None, 0, [], map[]);
    SetStep(c, 'y', '2', None, 0, ['x'], map['x' := Plain('1')]);
    observed := GetStep(c, 'x', 0, ['x', 'y'], XY);
  }

  // A stale bucket: a key set with a time to live and then set again
  // without one stays in its old bucket, but the sweep re-checks the
  // current entry and keeps it.

  const K1: Data := map['k' := Stored('1', Some(100))]
  const K2: Data := map['k' := Plain('2')]

  lemma StaleFacts()
    ensures Trim(Without([], 'k') + ['k'], None) == ['k']
    ensures Restrict(map[]['k' := Stored('1', Expiry(Some(100), 0))], Elems(['k'])) == K1
    ensures Trim(Without(['k'], 'k') + ['k'], None) == ['k']
    ensures Restrict(K1['k' := Stored('2', Expiry(None, 50))], Elems(['k'])) == K2
  {
    Appended([], 'k', None);
    Rotated('k', []);
  }

  /** 'k' is set at 0 to expire at 100, then set again at 50 with no time
      to live; a sweep at 1000 passes over the bucket of time 100 and 'k'
      is still there and current. */
  method StaleBucketScenario() returns (observed: Option<char>)
    ensures observed == Some('2')
  {
    StaleFacts();
    var c := new Cache(None, Some(10), None, 0);
    assert c.Data() == map[];
    SetStep(c, 'k', '1', Some(100), 0, [], map[]);
    SetStep(c, 'k', '2', None, 50, ['k'], K1);
    SweepStep(c, 1000, K2);
    assert 'k' in c.Data() && c.Data()['k'] == Plain('2');
    observed := GetStep(c, 'k', 1000, c.order, c.Data());
  }

  // The sweep, not `get`, removes an expired entry: the property the "many
  // cache expirations" test (tests/tests.js, lines 58-86) checks with real
  // timers, on two entries and one sweep at a fixed time.

  const P: Data := map['p' := Stored('p', Some(100))]
  const PQ: Data := map['p' := Stored('p', Some(100)), 'q' := Stored('q', Some(200))]
  const Q: Data := map['q' := Stored('q', Some(200))]
  /** The bucket of epoch 11 (times 100 to 109), and with it that of epoch 21 (times 200 to 209). */
  const PBuckets: map<int, seq<char>> := map[11 := ['p']]
  const PQBuckets: map<int, seq<char>> := map[11 := ['p'], 21 := ['q']]

  lemma OneExpiryFacts()
    ensures Trim(Without([], 'p') + ['p'], None) == ['p']
    ensures Restrict(map[]['p' := Stored('p', Expiry(Some(100), 0))], Elems(['p'])) == P
    ensures Epoch(100, 0, 10) == 11 && Schedule(map[], 11, 'p') == PBuckets
  {
    Appended([], 'p', None);
    assert Schedule(map[], 11, 'p')[11] == [] + ['p'] == ['p'];
  }

  lemma TwoExpiriesFacts()
    ensures Trim(Without(['p'], 'q') + ['q'], None) == ['p', 'q']
    ensures Restrict(P['q' := Stored('q', Expiry(Some(200), 0))], Elems(['p', 'q'])) == PQ
    ensures |PQ| == 2
  {
    Appended(['p'], 'q', None);
    assert Elems(['p', 'q']) == {'p', 'q'};
    Kept(P, 'q', Stored('q', Some(200)), {'p', 'q'}, {});
    assert (P - {})['q' := Stored('q', Some(200))] == PQ;
  }

  lemma SecondBucketFacts()
    ensures Epoch(200, 0, 10) == 21 && Schedule(PBuckets, 21, 'q') == PQBuckets
  {
    var buckets := Schedule(PBuckets, 21, 'q');
    assert buckets.Keys == PQBuckets.Keys;
    assert buckets[21] == [] + ['q'] == ['q'];
  }

  /** What a sweep at 205 leaves of `PQ`: the epoch of 205 is not complete,
      so the sweep walks the bucket of 'p' but not that of 'q'; 'p' is due
      and goes, 'q' is due too but stays, as no walked bucket lists it. */
  lemma PartialSweepFacts(c: Cache<char, char>, after: Data)
    requires c.inception == 0 && c.evictionInterval == 10
    requires SubMap(after, PQ)
    requires forall e :: c.SweptAt(-1, 205, e) && e in PQBuckets ==> DueGone(PQ, PQBuckets[e], after, 205)
    requires forall k :: k in PQ && k !in after ==> exists e :: c.SweptAt(-1, 205, e) && e in PQBuckets && k in PQBuckets[e]
    ensures after == Q && |Q| == 1
    ensures 'q' in Q && Due(Q['q'], 205) && Lookup(Q, 'q', 205) == None && Q - {'q'} == map[]
  {
    assert Epoch(205, 0, 10) == 21;
    assert c.SweptAt(-1, 205, 11) && !c.SweptAt(-1, 205, 21);
    assert PQBuckets[11][0] == 'p';
    assert 'p' !in after;
    assert after.Keys == Q.Keys;
  }

  /** 'p' is set at 0 to expire at 100 and 'q' to expire at 200, in a cache
      whose epochs are 10 ms wide. A sweep at 205 removes 'p' and keeps 'q',
      whose epoch is still running, though it has expired; `get` at 205
      then removes 'q'. The sizes go from 2 to 1 to 0. */
  method SweepScenario() returns (observed: Option<char>, sizes: seq<nat>)
    ensures observed == None && sizes == [2, 1, 0]
  {
    var c, n0 := TwoExpiries();
    SweepStep(c, 205, PQ);
    PartialSweepFacts(c, c.Data());
    var n1 := CountStep(c, c.order, Q);
    observed := GetStep(c, 'q', 205, c.order, Q);
    var n2 := CountStep(c, c.order, map[]);
    sizes := [n0, n1, n2];
  }

  /** Set 'p' to expire in 100 ms and 'q' in 200 ms, at time 0: both are
      stored, each listed in the bucket of the epoch it expires in. */
  method TwoExpiries() returns (c: Cache<char, char>, size: nat)
    ensures fresh(c) && c.inception == 0 && c.evictionInterval == 10
    ensures Stores(c, PQ) && c.pendingEvictions == PQBuckets && c.evictedEpoch == -1
    ensures size == 2
  {
    TwoExpiriesFacts();
    SecondBucketFacts();
    c := OneExpiry();
    assert c.GetEpoch(200) == 21;
    SetStep(c, 'q', 'q', Some(200), 0, ['p'], P);
    size := CountStep(c, ['p', 'q'], PQ);
  }

  /** Set 'p' to expire in 100 ms at time 0. */
  method OneExpiry() returns (c: Cache<char, char>)
    ensures fresh(c) && c.inception == 0 && c.evictionInterval == 10
    ensures c.limit == None && c.moduleDefaultExpireIn == None
    ensures Holds(c, ['p'], P) && c.pendingEvictions == PBuckets && c.evictedEpoch == -1
  {
    OneExpiryFacts();
    c := new Cache(None, Some(10), None, 0);
    assert c.Data() == map[];
    assert c.GetEpoch(100) == 11;
    SetStep(c, 'p', 'p', Some(100), 0, [], map[]);
  }
}
