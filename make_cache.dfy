/** The cache of makeCache.js: a key/value store with an optional capacity
    bound, enforced by evicting the least recently used keys, and optional
    per-entry expiry, enforced lazily on `get` and by a periodic sweep over
    epoch buckets. Time is an integer count of milliseconds passed in as `now`. */
module MakeCache {
  import opened Wrappers
  import opened Collections
  import opened Epochs
  import opened UsageOrder

  /** Sweep cadence and epoch width when none is configured: one minute. */
  const DEFAULT_EVICTION_INTERVAL: int := 1 * 60 * 1000

  /** The two errors the cache throws. */
  datatype CacheError =
    | NegativeExpirey      // `set` was given a negative `expireIn`
    | AppendWithoutRemove  // a use was appended for an entry still linked into the usage list

  /** The `options` argument of `set`: a bare number, or a record whose
      `expireIn` may be absent (an absent `options` is the empty record). */
  datatype SetOptions = Duration(ms: int) | Fields(expireIn: Option<int>)

  /** `options.expireIn`, once a bare number `n` has been read as `{expireIn: n}`. */
  function RequestedExpireIn(options: SetOptions): Option<int> {
    match options
    case Duration(n) => Some(n)
    case Fields(e) => e
  }

  /** `set` refuses `options` whose `expireIn` is negative; an absent one
      compares false with 0. */
  predicate Rejects(options: SetOptions) {
    var requested := RequestedExpireIn(options);
    requested.Some? && requested.value < 0
  }

  /** JavaScript truthiness of an optional number: present and not 0. */
  predicate Truthy(n: Option<int>) {
    n.Some? && n.value != 0
  }

  /** The time to live `set` gives an entry, `None` for one that never
      expires: the requested `expireIn` when truthy, else the module's default
      when truthy. */
  function EffectiveTtl(requested: Option<int>, moduleDefault: Option<int>): (ttl: Option<int>)
    ensures ttl.Some? ==> ttl.value != 0
    ensures Truthy(requested) ==> ttl == requested
    ensures !Truthy(requested) ==> ttl == (if Truthy(moduleDefault) then moduleDefault else None)
    ensures ttl.None? <==> !Truthy(requested) && !Truthy(moduleDefault)
  {
    var expireIn := if Truthy(requested) then requested else moduleDefault;
    if Truthy(expireIn) then expireIn else None
  }

  /** The clock's `hasPassed`: a timestamp has passed once `now` is later. */
  predicate HasPassed(at: int, now: int) {
    at < now
  }

  /** An entry is due for removal when it has an expiry time and that time has passed. */
  predicate Due<V>(s: Stored<V>, now: int) {
    s.expireAt.Some? && HasPassed(s.expireAt.value, now)
  }

  /** The pending-eviction buckets with `key` pushed onto the end of the
      bucket of `epoch` (created empty if missing); every other bucket as it was. */
  function Schedule<K>(pending: map<int, seq<K>>, epoch: int, key: K): (r: map<int, seq<K>>)
    ensures r.Keys == pending.Keys + {epoch}
    ensures r[epoch] == (if epoch in pending then pending[epoch] else []) + [key]
    ensures forall e :: e in pending && e != epoch ==> r[e] == pending[e]
  {
    var bucket := if epoch in pending then pending[epoch] else [];
    pending[epoch := bucket + [key]]
  }

  /** Every key that `before` held and `after` lacks was due at `now`. */
  ghost predicate OnlyDueGone<K, V>(before: map<K, Stored<V>>, after: map<K, Stored<V>>, now: int) {
    forall k :: k in before && k !in after ==> Due(before[k], now)
  }

  /** Every key of `keys` that `before` held and that was due at `now` is
      missing from `after`. */
  ghost predicate DueGone<K, V>(before: map<K, Stored<V>>, keys: seq<K>, after: map<K, Stored<V>>, now: int) {
    forall j :: 0 <= j < |keys| && keys[j] in before && Due(before[keys[j]], now) ==> keys[j] !in after
  }

  /** Removing more keys keeps the due ones gone. */
  lemma DueGoneShrinks<K, V>(before: map<K, Stored<V>>, keys: seq<K>, after: map<K, Stored<V>>, smaller: map<K, Stored<V>>, now: int)
    requires DueGone(before, keys, after, now) && smaller.Keys <= after.Keys
    ensures DueGone(before, keys, smaller, now)
  {
  }

  /** What checking the first `j` keys of `bucket` has achieved, starting
      from the data `d0` and the usage order `o0` and leaving `data` and
      `order`: entries only disappear, the order loses exactly the vanished
      keys, only due entries vanished, and every due key among the first `j`
      did, and only keys among the first `j` vanished. */
  ghost predicate Checked<K, V>(bucket: seq<K>, j: int, data: map<K, Stored<V>>, order: seq<K>,
                                d0: map<K, Stored<V>>, o0: seq<K>, now: int)
    requires 0 <= j <= |bucket|
  {
    && SubMap(data, d0) && order == Keep(o0, data.Keys)
    && OnlyDueGone(d0, data, now)
    && (forall k :: k in d0 && k !in data ==> k in bucket[..j])
    && (forall i :: 0 <= i < j && i < |bucket| && bucket[i] in d0 && Due(d0[bucket[i]], now) ==> bucket[i] !in data)
  }

  /** Checking the expiry of key `j` of the bucket, which removes it from
      `data` and `order` when it is due and changes nothing otherwise,
      extends what the bucket check has achieved by that key. */
  lemma CheckedStep<K, V>(bucket: seq<K>, j: int, data: map<K, Stored<V>>, order: seq<K>,
                          data1: map<K, Stored<V>>, order1: seq<K>,
                          d0: map<K, Stored<V>>, o0: seq<K>, now: int)
    requires 0 <= j < |bucket| && Checked(bucket, j, data, order, d0, o0, now)
    requires bucket[j] in data && Due(data[bucket[j]], now) ==> data1 == data - {bucket[j]} && order1 == Without(order, bucket[j])
    requires !(bucket[j] in data && Due(data[bucket[j]], now)) ==> data1 == data && order1 == order
    ensures Checked(bucket, j + 1, data1, order1, d0, o0, now)
  {
    assert bucket[..j + 1] == bucket[..j] + [bucket[j]];
    if bucket[j] in data && Due(data[bucket[j]], now) {
      assert data1.Keys == data.Keys - {bucket[j]};
      KeepWithout(o0, data.Keys, bucket[j]);
    }
  }

  /** What a sweep that started from the buckets `p0`, the data `d0` and the
      usage order `o0` has achieved once it has walked from epoch `start` up
      to but excluding epoch `epoch`, leaving the buckets `pending`, the data
      `data` and the order `order`: exactly the walked buckets are deleted,
      the others are untouched; entries only disappear, the order loses
      exactly the vanished keys; only due entries vanished, only keys listed
      in a walked bucket vanished, and every due entry listed in a walked
      bucket did. */
  ghost predicate Progress<K, V>(start: int, epoch: int, pending: map<int, seq<K>>, data: map<K, Stored<V>>, order: seq<K>,
                                 p0: map<int, seq<K>>, d0: map<K, Stored<V>>, o0: seq<K>, now: int) {
    && (forall e :: e in pending <==> e in p0 && !Visited(start, epoch, e))
    && (forall e :: e in pending ==> pending[e] == p0[e])
    && SubMap(data, d0) && order == Keep(o0, data.Keys)
    && OnlyDueGone(d0, data, now)
    && (forall k :: k in d0 && k !in data ==> exists e :: Visited(start, epoch, e) && e in p0 && k in p0[e])
    && (forall e :: Visited(start, epoch, e) && e in p0 ==> DueGone(d0, p0[e], data, now))
  }

  /** One turn of the sweep: checking the bucket of `epoch` (turning `data`
      and `order` into `data1` and `order1`) and deleting it extends the
      progress by that epoch. */
  lemma ProgressStep<K, V>(start: int, epoch: int, stop: int, pending: map<int, seq<K>>, data: map<K, Stored<V>>, order: seq<K>,
                           data1: map<K, Stored<V>>, order1: seq<K>,
                           p0: map<int, seq<K>>, d0: map<K, Stored<V>>, o0: seq<K>, now: int)
    requires 0 <= start < MAX_INT && 0 <= epoch < MAX_INT && 0 <= stop < MAX_INT && epoch != stop
    requires Steps(start, epoch) + Steps(epoch, stop) == Steps(start, stop)
    requires Progress(start, epoch, pending, data, order, p0, d0, o0, now)
    requires SubMap(data1, data) && order1 == Keep(order, data1.Keys)
    requires OnlyDueGone(data, data1, now)
    requires DueGone(data, if epoch in pending then pending[epoch] else [], data1, now)
    requires forall k :: k in data && k !in data1 ==> k in (if epoch in pending then pending[epoch] else [])
    ensures Progress(start, Next(epoch), pending - {epoch}, data1, order1, p0, d0, o0, now)
    ensures Steps(start, Next(epoch)) + Steps(Next(epoch), stop) == Steps(start, stop)
    ensures Steps(Next(epoch), stop) < Steps(epoch, stop)
  {
    KeepKeep(o0, data.Keys, data1.Keys);
    Step(start, epoch, stop);
    forall k | k in d0 && k !in data1
      ensures exists e :: Visited(start, Next(epoch), e) && e in p0 && k in p0[e]
    {
      if k !in data {
        var e :| Visited(start, epoch, e) && e in p0 && k in p0[e];
        assert Visited(start, Next(epoch), e);
      } else {
        assert epoch in pending && pending[epoch] == p0[epoch];
        assert Visited(start, Next(epoch), epoch);
      }
    }
    forall e | Visited(start, Next(epoch), e) && e in p0
      ensures DueGone(d0, p0[e], data1, now)
    {
      if e != epoch {
        DueGoneShrinks(d0, p0[e], data, data1, now);
      } else {
        assert epoch in pending && pending[epoch] == p0[epoch];
      }
    }
  }

  class Cache<K(==), V> {
    var items: map<K, Entry<K, V>>
    var oldest: Option<K>
    var newest: Option<K>
    var size: int
    var pendingEvictions: map<int, seq<K>>
    var evictedEpoch: int
    const limit: Option<nat>
    const evictionInterval: int
    const inception: int
    const moduleDefaultExpireIn: Option<int>
    /** The usage list, least recently used first. */
    ghost var order: seq<K>

    /** The invariant of every state between public operations, except the capacity bound. */
    ghost predicate Consistent()
      reads this`size, this`items, this`oldest, this`newest, this`order, this`evictedEpoch
    {
      && evictionInterval > 0
      && size == |items|
      && Threads(items, oldest, newest, order)
      && -1 <= evictedEpoch < MAX_INT
    }

    ghost predicate WithinLimit()
      reads this`size
    {
      limit.Some? ==> size <= limit.value
    }

    /** The object invariant. */
    ghost predicate Valid()
      reads this`size, this`items, this`oldest, this`newest, this`order, this`evictedEpoch
    {
      Consistent() && WithinLimit()
    }

    /** The keys and what is stored under each. */
    ghost function Data(): map<K, Stored<V>>
      reads this`items
    {
      Payloads(items)
    }

    /** The state `clear` leaves. */
    ghost predicate Cleared()
      reads this
    {
      && size == 0 && items == map[] && order == []
      && oldest == None && newest == None
      && pendingEvictions == map[] && evictedEpoch == -1
    }

    function GetEpoch(time: int): int
      requires evictionInterval > 0
    {
      Epoch(time, inception, evictionInterval)
    }

    /** The most recent epoch that has fully elapsed at `now`. */
    function CompletedEpoch(now: int): int
      requires evictionInterval > 0
    {
      GetEpoch(now) - 1
    }

    /** The completed epoch is a real epoch once the clock has reached
        inception, and every time that falls in an epoch up to it has passed
        at `now`: a sweep only walks buckets of times gone by. */
    lemma CompletedEpochHasPassed(at: int, now: int)
      requires evictionInterval > 0 && inception <= at && inception <= now
      requires Unwrapped(now, inception, evictionInterval)
      ensures 0 <= CompletedEpoch(now)
      ensures Unwrapped(at, inception, evictionInterval) && GetEpoch(at) <= CompletedEpoch(now) ==> HasPassed(at, now)
    {
      EpochCounts(now, inception, evictionInterval);
      if Unwrapped(at, inception, evictionInterval) && GetEpoch(at) <= CompletedEpoch(now) {
        DueEpochHasPassed(at, now, inception, evictionInterval);
      }
    }

    /** A sweep at `now`, after the last swept epoch `evicted`, visits epoch `e`. */
    predicate SweptAt(evicted: int, now: int, e: int)
      requires evictionInterval > 0
    {
      CompletedEpoch(now) != -1 && SweepVisits(evicted, CompletedEpoch(now), e)
    }

    constructor (limit: Option<nat>, evictionInterval: Option<int>, moduleDefaultExpireIn: Option<int>, now: int)
      requires evictionInterval.Some? ==> evictionInterval.value >= 0
      ensures Valid() && Cleared()
      ensures this.limit == limit && inception == now && this.moduleDefaultExpireIn == moduleDefaultExpireIn
      ensures this.evictionInterval == if Truthy(evictionInterval) then evictionInterval.value else DEFAULT_EVICTION_INTERVAL
    {
      this.limit := limit;
      this.evictionInterval := if Truthy(evictionInterval) then evictionInterval.value else DEFAULT_EVICTION_INTERVAL;
      this.inception := now;
      this.moduleDefaultExpireIn := moduleDefaultExpireIn;
      new;
      Clear();
    }

    /** Empties the cache and resets the scheduler. */
    method Clear()
      requires evictionInterval > 0
      modifies this`size, this`items, this`oldest, this`newest, this`pendingEvictions, this`evictedEpoch, this`order
      ensures Valid() && Cleared()
    {
      size := 0;
      items := map[];
      oldest := None;
      newest := None;
      pendingEvictions := map[];
      evictedEpoch := -1;
      order := [];
    }

    /** Links the detached entry `key` in as the newest use. Fails, touching
        nothing, when the entry is still in the list or has a link left. The
        source's guard tests the links only, which lets through the key that
        is all of the list (a finding, see the AsWritten module); this guard
        also refuses the key that is the newest end. */
    method AppendUse(key: K) returns (r: Outcome<CacheError>)
      requires Linked(items, oldest, newest, order) && key in items
      modifies this`items, this`oldest, this`newest, this`order
      ensures r.Fail? <==> old(key in order || items[key].older.Some? || items[key].newer.Some?)
      ensures r.Fail? ==> r.error == AppendWithoutRemove && unchanged(this)
      ensures r.Pass? ==>
        && order == old(order) + [key]
        && Linked(items, oldest, newest, order)
        && newest == Some(key)
        && (old(order) == [] ==> oldest == Some(key))
        && items.Keys == old(items).Keys
        && Payloads(items) == Payloads(old(items))
    {
      var item := items[key];
      ListedEntry(items, oldest, newest, order, key);
      if item.newer.Some? || item.older.Some? || newest == Some(key) {
        return Fail(AppendWithoutRemove);
      }
      ghost var items0, oldest0 := items, oldest;
      if newest.None? {
        oldest := Some(key);
      } else {
        var last := newest.value;
        assert LinkedAt(items, order, |order| - 1);
        items := items[key := item.(older := newest)];
        items := items[last := items[last].(newer := Some(key))];
      }
      LinkedAppend(items0, oldest0, newest, order, key, items, oldest);
      newest := Some(key);
      order := order + [key];
      r := Pass;
    }

    /** Unlinks `key` from wherever it sits in the usage list, joining its
        neighbours (or moving an end), and clears its own links. */
    method RemoveUse(key: K)
      requires Linked(items, oldest, newest, order) && key in items && key in order
      modifies this`items, this`oldest, this`newest, this`order
      ensures Linked(items, oldest, newest, order)
      ensures order == Without(old(order), key)
      ensures items.Keys == old(items).Keys && Payloads(items) == Payloads(old(items))
      ensures items[key].older.None? && items[key].newer.None?
    {
      NeighboursStored(items, oldest, newest, order, key);
      var item := items[key];
      var items1, oldest1 := items, oldest;
      if item.older.Some? {
        items1 := items1[item.older.value := items1[item.older.value].(newer := item.newer)];
      } else {
        oldest1 := item.newer;
      }
      var items2, newest2 := items1, newest;
      if item.newer.Some? {
        items2 := items2[item.newer.value := items2[item.newer.value].(older := item.older)];
      } else {
        newest2 := item.older;
      }
      var items3 := items2[key := item.(older := None, newer := None)];
      Unlink(items, oldest, newest, order, key, items1, items2, items3, oldest1, newest2);
      items, oldest, newest := items3, oldest1, newest2;
      order := Without(order, key);
    }

    /** A consistent cache lists as many keys in its usage order as it holds. */
    lemma OrderCoversItems()
      requires Consistent()
      ensures |order| == size
    {
      assert |items| == |items.Keys|;
    }

    /** Deletes `key` and its use; a no-op when it is absent. */
    method Remove(key: K)
      requires Consistent()
      modifies this`items, this`size, this`oldest, this`newest, this`order
      ensures Consistent() && size <= old(size)
      ensures key !in old(items) ==> unchanged(this)
      ensures key in old(items) ==>
        && size == old(size) - 1
        && Data() == old(Data()) - {key}
        && order == Without(old(order), key)
    {
      if key in items {
        assert key in Elems(order);
        RemoveUse(key);
        DeleteDetached(items, oldest, newest, order, key);
        items := items - {key};
        size := size - 1;
      }
    }

    /** Removes `key` when it is present and its expiry time has passed. */
    method CheckExpirey(key: K, now: int)
      requires Consistent()
      modifies this`items, this`size, this`oldest, this`newest, this`order
      ensures Consistent() && size <= old(size)
      ensures !(key in old(Data()) && Due(old(Data())[key], now)) ==> unchanged(this)
      ensures key in old(Data()) && Due(old(Data())[key], now) ==>
        && Data() == old(Data()) - {key}
        && order == Without(old(order), key)
    {
      if key in items && items[key].expireAt.Some? && HasPassed(items[key].expireAt.value, now) {
        Remove(key);
      }
    }

    /** Evicts from the oldest end until the capacity bound holds. */
    method EvictSurplus()
      requires Consistent()
      modifies this`items, this`size, this`oldest, this`newest, this`order
      ensures Valid()
      ensures order == Trim(old(order), limit)
      ensures SubMap(Data(), old(Data()))
    {
      if limit.Some? {
        while limit.value < size
          invariant Consistent()
          invariant Trim(order, limit) == Trim(old(order), limit)
          invariant SubMap(Data(), old(Data()))
          decreases size
        {
          OrderCoversItems();
          var key := oldest.value;
          WithoutAt(order, 0);
          assert order[..0] + order[1..] == order[1..];
          Remove(key);
        }
        OrderCoversItems();
      }
    }

    /** Pushes `key` onto the bucket of the epoch `time` falls in. */
    method ExpireAt(key: K, time: int)
      requires evictionInterval > 0
      modifies this`pendingEvictions
      ensures pendingEvictions == Schedule(old(pendingEvictions), GetEpoch(time), key)
    {
      var epoch := GetEpoch(time);
      var bucket := if epoch in pendingEvictions then pendingEvictions[epoch] else [];
      pendingEvictions := pendingEvictions[epoch := bucket + [key]];
    }

    /** The time an entry stored at `now` with `options` expires at, if it
        gets a time to live. */
    function ExpiryFor(options: SetOptions, now: int): Option<int> {
      var ttl := EffectiveTtl(RequestedExpireIn(options), moduleDefaultExpireIn);
      if ttl.Some? then Some(now + ttl.value) else None
    }

    /** A bare number `n` given as `options` is read as `{expireIn: n}`: it
        is refused alike, exactly when it is negative, and gives the same
        expiry time. Absent options are never refused. */
    lemma BareNumberIsExpireIn(n: int, now: int)
      ensures RequestedExpireIn(Duration(n)) == RequestedExpireIn(Fields(Some(n))) == Some(n)
      ensures Rejects(Duration(n)) <==> n < 0
      ensures Rejects(Duration(n)) == Rejects(Fields(Some(n)))
      ensures ExpiryFor(Duration(n), now) == ExpiryFor(Fields(Some(n)), now)
      ensures !Rejects(Fields(None))
    {
    }

    /** An entry gets an expiry time exactly when a truthy time to live is
        requested or configured; an entry `set` accepts then expires after
        `now`, so it is live when stored, unless the module's default time
        to live is negative. */
    lemma FreshEntryLive(options: SetOptions, now: int)
      requires !Rejects(options)
      requires moduleDefaultExpireIn.Some? ==> moduleDefaultExpireIn.value >= 0
      ensures ExpiryFor(options, now).None? <==> !Truthy(RequestedExpireIn(options)) && !Truthy(moduleDefaultExpireIn)
      ensures ExpiryFor(options, now).Some? ==> now < ExpiryFor(options, now).value
      ensures ExpiryFor(options, now).Some? ==> !HasPassed(ExpiryFor(options, now).value, now)
    {
    }

    /** Stores `val` under `key` as its newest use, schedules its expiry when
        it gets a time to live, then evicts the least recently used keys
        beyond the limit. Refuses a negative `expireIn` before changing anything. */
    method Set(key: K, val: V, options: SetOptions, now: int) returns (r: Outcome<CacheError>)
      requires Valid()
      modifies this`items, this`size, this`oldest, this`newest, this`order, this`pendingEvictions
      ensures Valid()
      ensures Rejects(options) ==> r == Fail(NegativeExpirey) && unchanged(this)
      ensures !Rejects(options) ==>
        && r == Pass
        && order == Trim(Without(old(order), key) + [key], limit)
        && SubMap(Data(), old(Data())[key := Stored(val, ExpiryFor(options, now))])
        && (key in items <==> limit != Some(0))
        && pendingEvictions == if ExpiryFor(options, now).Some?
                               then Schedule(old(pendingEvictions), GetEpoch(ExpiryFor(options, now).value), key)
                               else old(pendingEvictions)
    {
      if Rejects(options) {
        return Fail(NegativeExpirey);
      }
      var entry := Entry(val, None, None, None);
      var expireIn := EffectiveTtl(RequestedExpireIn(options), moduleDefaultExpireIn);
      if expireIn.Some? {
        entry := entry.(expireAt := Some(now + expireIn.value));
      }
      Store(key, entry);
      ghost var stored := order;
      if expireIn.Some? {
        ExpireAt(key, now + expireIn.value);
      }
      EvictSurplus();
      TrimLast(stored, limit);
      r := Pass;
    }

    /** The writing part of `set`: releases the key's current use, stores
        the detached `entry` under it and appends its use as the newest. */
    method Store(key: K, entry: Entry<K, V>)
      requires Consistent() && entry.older.None? && entry.newer.None?
      modifies this`items, this`size, this`oldest, this`newest, this`order
      ensures Consistent()
      ensures order == Without(old(order), key) + [key] && newest == Some(key)
      ensures Data() == old(Data())[key := entry.Payload()]
    {
      Release(key);
      Put(key, entry);
    }

    /** The rest of `set`'s writing part: once the key is off the list,
        stores the detached `entry` under it and appends its use. */
    method Put(key: K, entry: Entry<K, V>)
      requires evictionInterval > 0 && -1 <= evictedEpoch < MAX_INT
      requires Linked(items, oldest, newest, order) && Elems(order) == items.Keys - {key}
      requires size == if key in items then |items| else |items| + 1
      requires entry.older.None? && entry.newer.None?
      modifies this`items, this`oldest, this`newest, this`order
      ensures Consistent()
      ensures order == old(order) + [key] && newest == Some(key)
      ensures Data() == old(Data())[key := entry.Payload()]
    {
      StoreDetached(items, oldest, newest, order, key, entry);
      items := items[key := entry];
      var appended := AppendUse(key);
    }

    /** The first step of `set`: takes the use of a stored key off the
        list, or counts a key that is about to be added. */
    method Release(key: K)
      requires Consistent()
      modifies this`items, this`size, this`oldest, this`newest, this`order
      ensures Linked(items, oldest, newest, order) && Elems(order) == items.Keys - {key}
      ensures order == Without(old(order), key)
      ensures items.Keys == old(items).Keys && Payloads(items) == Payloads(old(items))
      ensures size == if key in items then |items| else |items| + 1
    {
      if key in items {
        assert key in Elems(order);
        RemoveUse(key);
      } else {
        size := size + 1;
      }
    }

    /** Looks `key` up. An entry whose expiry time has passed is removed
        first; a live one becomes the newest use. */
    method Get(key: K, now: int) returns (r: Option<V>)
      requires Valid()
      modifies this`items, this`size, this`oldest, this`newest, this`order
      ensures Valid()
      ensures key !in old(items) ==> r == None && unchanged(this)
      ensures key in old(items) && Due(old(Data())[key], now) ==>
        && r == None
        && Data() == old(Data()) - {key}
        && order == Without(old(order), key)
      ensures key in old(items) && !Due(old(Data())[key], now) ==>
        && r == Some(old(items[key].value))
        && Data() == old(Data())
        && order == Without(old(order), key) + [key]
        && newest == Some(key)
    {
      CheckExpirey(key, now);
      if key in items {
        Touch(key);
      }
      r := if key in items then Some(items[key].value) else None;
    }

    /** The refresh of `get`: moves the use of a stored key to the newest end. */
    method Touch(key: K)
      requires Consistent() && key in items
      modifies this`items, this`oldest, this`newest, this`order
      ensures Consistent()
      ensures order == Without(old(order), key) + [key] && newest == Some(key)
      ensures Data() == old(Data())
    {
      ghost var keys := items.Keys;
      assert key in Elems(order);
      MoveToEnd(order, key);
      RemoveUse(key);
      var appended := AppendUse(key);
      assert items.Keys == keys && Elems(order) == keys;
    }

    /** The inner loop of `evictExpireds`: checks the expiry of each key of a
        bucket in turn. */
    method CheckBucket(bucket: seq<K>, now: int)
      requires Consistent()
      modifies this`items, this`size, this`oldest, this`newest, this`order
      ensures Consistent() && size <= old(size)
      ensures SubMap(Data(), old(Data())) && order == Keep(old(order), Data().Keys)
      ensures OnlyDueGone(old(Data()), Data(), now)
      ensures DueGone(old(Data()), bucket, Data(), now)
      ensures forall k :: k in old(Data()) && k !in Data() ==> k in bucket
    {
      assert forall y :: y in order ==> y in Data().Keys by {
        assert Elems(order) == items.Keys;
      }
      KeepAll(order, Data().Keys);
      for j := 0 to |bucket|
        invariant Consistent() && size <= old(size)
        invariant Checked(bucket, j, Data(), order, old(Data()), old(order), now)
      {
        ghost var data, listed := Data(), order;
        CheckExpirey(bucket[j], now);
        CheckedStep(bucket, j, data, listed, Data(), order, old(Data()), old(order), now);
      }
      assert bucket[..|bucket|] == bucket;
    }

    /** The periodic sweep: walks the epochs after the last swept one up to
        the most recent completed one, checking the expiry of every key in
        each epoch's bucket, then deleting the bucket and recording the epoch
        as swept. */
    method EvictExpireds(now: int)
      requires Valid() && inception <= now
      modifies this`items, this`size, this`oldest, this`newest, this`order, this`pendingEvictions, this`evictedEpoch
      ensures Valid()
      ensures CompletedEpoch(now) == -1 ==> unchanged(this)
      ensures CompletedEpoch(now) != -1 ==> evictedEpoch == CompletedEpoch(now)
      ensures forall e :: e in pendingEvictions <==> e in old(pendingEvictions) && !SweptAt(old(evictedEpoch), now, e)
      ensures forall e :: e in pendingEvictions ==> pendingEvictions[e] == old(pendingEvictions)[e]
      ensures SubMap(Data(), old(Data())) && order == Keep(old(order), Data().Keys)
      ensures OnlyDueGone(old(Data()), Data(), now)
      ensures forall k :: k in old(Data()) && k !in Data() ==>
        exists e :: SweptAt(old(evictedEpoch), now, e) && e in old(pendingEvictions) && k in old(pendingEvictions)[e]
      ensures forall e :: SweptAt(old(evictedEpoch), now, e) && e in old(pendingEvictions) ==>
        DueGone(old(Data()), old(pendingEvictions)[e], Data(), now)
    {
      assert forall y :: y in order ==> y in Data().Keys by {
        assert Elems(order) == items.Keys;
      }
      KeepAll(order, Data().Keys);
      var completedEpoch := GetEpoch(now) - 1;
      if completedEpoch == -1 {
        return;
      }
      EpochCounts(now, inception, evictionInterval);
      assert 0 <= completedEpoch < MAX_INT - 1;
      SweepEpochs(Next(evictedEpoch), completedEpoch + 1, now);
      PrevEpoch(evictedEpoch, completedEpoch);
    }

    /** The state of the sweep loop, measured against the buckets `p0`, the
        data `d0`, the order `o0` and the size `s0` it started from, once it
        has walked from `start` up to but excluding `epoch`. */
    ghost predicate Swept(start: int, epoch: int, p0: map<int, seq<K>>, d0: map<K, Stored<V>>, o0: seq<K>, s0: int, now: int)
      reads this`size, this`items, this`oldest, this`newest, this`order, this`evictedEpoch, this`pendingEvictions
    {
      && 0 <= epoch < MAX_INT
      && Consistent() && size <= s0
      && Next(evictedEpoch) == epoch
      && Progress(start, epoch, pendingEvictions, Data(), order, p0, d0, o0, now)
    }

    /** One turn of the sweep loop: checks the expiry of every key in the
        bucket of `epoch`, deletes the bucket and records `epoch` as swept. */
    method SweepEpoch(start: int, epoch: int, stop: int, ghost p0: map<int, seq<K>>, ghost d0: map<K, Stored<V>>, ghost o0: seq<K>, ghost s0: int, now: int)
      requires 0 <= start < MAX_INT && 0 <= stop < MAX_INT && epoch != stop
      requires Swept(start, epoch, p0, d0, o0, s0, now)
      requires Steps(start, epoch) + Steps(epoch, stop) == Steps(start, stop)
      modifies this`items, this`size, this`oldest, this`newest, this`order, this`pendingEvictions, this`evictedEpoch
      ensures Swept(start, Next(epoch), p0, d0, o0, s0, now)
      ensures Steps(start, Next(epoch)) + Steps(Next(epoch), stop) == Steps(start, stop)
      ensures Steps(Next(epoch), stop) < Steps(epoch, stop)
    {
      ghost var pending, data, listed := pendingEvictions, Data(), order;
      var bucket := if epoch in pendingEvictions then pendingEvictions[epoch] else [];
      CheckBucket(bucket, now);
      pendingEvictions := pendingEvictions - {epoch};
      evictedEpoch := epoch;
      ProgressStep(start, epoch, stop, pending, data, listed, Data(), order, p0, d0, o0, now);
    }

    /** The loop of `evictExpireds`: sweeps epoch after epoch, from `start`
        up to but excluding `stop`, stepping through MAX_INT cyclically. */
    method SweepEpochs(start: int, stop: int, now: int)
      requires Consistent() && 0 <= start < MAX_INT && 0 <= stop < MAX_INT && Next(evictedEpoch) == start
      requires order == Keep(order, Data().Keys)
      modifies this`items, this`size, this`oldest, this`newest, this`order, this`pendingEvictions, this`evictedEpoch
      ensures Swept(start, stop, old(pendingEvictions), old(Data()), old(order), old(size), now)
    {
      var epoch := start;
      while epoch != stop
        invariant Swept(start, epoch, old(pendingEvictions), old(Data()), old(order), old(size), now)
        invariant Steps(start, epoch) + Steps(epoch, stop) == Steps(start, stop)
        decreases Steps(epoch, stop)
      {
        SweepEpoch(start, epoch, stop, old(pendingEvictions), old(Data()), old(order), old(size), now);
        epoch := Next(epoch);
      }
    }

    /** Counts the keys of the item map, one at a time. */
    method CountSize() returns (n: nat)
      ensures n == |items|
      ensures Consistent() ==> n == size
    {
      n := 0;
      var rest := items.Keys;
      while rest != {}
        invariant rest <= items.Keys
        invariant n + |rest| == |items.Keys|
        decreases |rest|
      {
        var which :| which in rest;
        rest := rest - {which};
        n := n + 1;
      }
      assert |items| == |items.Keys|;
    }
  }
}
