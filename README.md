# makeCache in Dafny

A model of `makeCache.js`, a small JavaScript in-memory cache. A cache
maker returns an object with `get`, `set`, `remove` and `clear`. The cache
keeps key/value entries with two optional bounds:

- a capacity `limit`, enforced by evicting the least recently used keys;
- a per-entry expiry (`expireIn`, in milliseconds), enforced lazily in two
  places: `get` removes an expired entry before reading it, and a periodic
  sweep (`evictExpireds`) walks epoch buckets of keys scheduled to expire.

Recency is kept as a doubly linked list threaded through the entries.
Each entry has an `older` and a `newer` link, and the cache records the
`oldest` and `newest` keys. `get` and `set` move a key to the newest end.

The project has seven modules:

- `Wrappers`: `Option` stands for `undefined`; `Outcome` models an
  operation that may throw.
- `Collections`: helpers on sequences and maps. `Trim` is what capacity
  eviction leaves of the usage order.
- `Epochs`: the epoch arithmetic of `getEpoch`, with JavaScript's `%`
  written out (`JsRem`). Also the cyclic walk of epoch numbers modulo
  `maxInt` that the sweep performs.
- `UsageOrder`: the entry record and the predicate `Linked`. `Linked` says
  that the `older`/`newer` links and the two ends thread a given sequence
  of distinct keys, the usage order. It also holds value-level lemmas about
  unlinking, appending, storing and deleting.
- `MakeCache`: the class `Cache`. Its fields are those of the source's
  private record `_`, and its methods are the public operations and the
  private helpers. A ghost field `order` records the usage order the links
  thread. The invariant `Valid()` ties the fields together. Every method is
  specified against the abstract contents `Data()` (key to value and
  expiry time) and `order`.
- `Scenarios`: the repository's tests (`tests/tests.js`) as client methods
  whose observed results are proved. There are two more scenarios: one for
  read-refreshes-recency and one for a stale sweep bucket.
- `AsWritten`: `appendUse` and `removeUse` as written, with the two
  defects of their link tests (see Findings).

Time is an integer number of milliseconds. Each operation that reads the
clock takes it as a parameter `now`. `HotDate#hasPassed` is `expireAt < now`.

## Model

| member | source | states |
|---|---|---|
| MakeCache.Cache.constructor | makeCache.js:99-104 | `options.evictionInterval` is used when truthy, else the default of 60000 ms. The limit and the module default TTL are taken as given, `inception` is the creation time, and the cache starts cleared and valid, as the `clear()` call at makeCache.js:192 leaves it. |
| MakeCache.Cache.Clear | makeCache.js:86-93 | The cache is left empty: size 0, no items, no ends, no pending buckets, `evictedEpoch` = -1. The invariant holds afterwards. |
| MakeCache.Cache.AppendUse | makeCache.js:161-171 | Throws exactly when the entry is still in the usage list or has a link left, and then changes nothing. (This is the corrected guard; see Findings.) Otherwise the key becomes the newest use: the usage order gains it at the end, it becomes `oldest` too if the list was empty, the list stays well linked and no stored contents change. |
| MakeCache.Cache.RemoveUse | makeCache.js:173-179 | The key leaves the usage order. Its neighbours are joined, or an end moves. Its own links are cleared, the list stays well linked, and the keys and contents stay the same. |
| MakeCache.Cache.Remove | makeCache.js:78-84 | An absent key changes nothing. A present key leaves the contents and the usage order, and the size drops by one. |
| MakeCache.Cache.CheckExpirey | makeCache.js:116-124 | A present entry whose expiry time has passed is removed, from the contents and the usage order. Any other call changes nothing. |
| MakeCache.Cache.EvictSurplus | makeCache.js:126-132 | Afterwards the size is within the limit. The usage order is the old one with its oldest keys dropped until the limit holds, and the contents only shrink. |
| MakeCache.Cache.ExpireAt | makeCache.js:110-114 | The key is appended to the bucket of the epoch `time` falls in; that bucket is created if missing, and every other bucket is unchanged. |
| MakeCache.Schedule | makeCache.js:110-114 | The bucket map gains the epoch. That bucket is the old one (or empty) plus the key, and the other buckets are as they were. |
| MakeCache.EffectiveTtl | makeCache.js:66-67 | The TTL is the requested `expireIn` when truthy, else the module default when truthy. There is none exactly when both are falsy, and a TTL is never 0. |
| MakeCache.Cache.Set | makeCache.js:54-76 | A negative `expireIn` throws before anything changes. Otherwise: the usage order is the old one with the key moved to the newest end, then trimmed to the limit; the stored contents are part of the old ones with the key bound to the new value and expiry; the key is stored unless the limit is 0; its expiry is scheduled when it gets a TTL; and the cache ends valid and within the limit. |
| MakeCache.Cache.Store | makeCache.js:60-74 | The key's old use is released, the detached entry is stored and its use is appended. The contents gain the entry and the order moves the key to the end. |
| MakeCache.Cache.Release | makeCache.js:60 | A stored key's use leaves the list. A new key instead raises the size by one. |
| MakeCache.Cache.Put | makeCache.js:62-74 | Storing a detached entry (its value and the expiry time set at makeCache.js:66-72) and appending its use makes the key the newest and binds it to the new contents. |
| MakeCache.Cache.Get | makeCache.js:45-52 | An absent key returns `undefined` and changes nothing. An expired entry is removed and reads as `undefined`. A live entry returns its value, keeps all contents and becomes the newest use. |
| MakeCache.Cache.Touch | makeCache.js:47-50 | The remove-then-append of `get` moves the key to the newest end and leaves the contents unchanged. |
| MakeCache.Cache.CheckBucket | makeCache.js:143-146 | Checking every key of a bucket removes exactly the due entries among them: every due entry listed in the bucket is gone, and every entry that is gone was due and listed in the bucket. Contents only shrink, and the order loses exactly the vanished keys. |
| MakeCache.Cache.EvictExpireds | makeCache.js:134-150 | With no completed epoch it changes nothing. Otherwise: `evictedEpoch` becomes the completed epoch; exactly the buckets on the walk from the epoch after the last swept one up to the completed one are deleted, and the others are untouched; every due entry listed in a walked bucket is gone; every entry that is gone was due and listed in a walked bucket; and the order loses exactly the vanished keys. |
| MakeCache.Cache.SweepEpoch | makeCache.js:143-148 | One turn of the sweep checks the epoch's bucket, deletes it and records the epoch as swept. This extends the sweep's progress by one epoch and shortens the distance left. The progress invariant says that exactly the walked buckets are deleted, that the due entries they list are gone, and that only due entries they list are gone. |
| MakeCache.Cache.SweepEpochs | makeCache.js:138-149 | The sweep loop stops at the epoch after the completed one, stepping cyclically modulo `maxInt`. It ends having walked exactly the epochs from its start up to that one: their buckets are deleted, the due entries they list are gone, and only due entries they list are gone. |
| MakeCache.Cache.CountSize | makeCache.js:181-187 | The count is the number of stored keys, and it equals the tracked `size` in a consistent cache. |
| MakeCache.Cache.OrderCoversItems | makeCache.js:128-129 | In a consistent state the usage list is exactly as long as the tracked size. |
| MakeCache.Cache.BareNumberIsExpireIn | makeCache.js:55-56 | A bare number `n` as `options` (`RequestedExpireIn`) is read as `{expireIn: n}`: it is refused (`Rejects`) exactly when negative, like the record, and gives the same expiry. Absent options are never refused. |
| MakeCache.Cache.FreshEntryLive | makeCache.js:66-70 | An entry gets an expiry time (`ExpiryFor`) exactly when a truthy TTL is requested or configured. An accepted entry then expires after `now`, so it is live when stored, given a non-negative module default. |
| MakeCache.Cache.CompletedEpochHasPassed | makeCache.js:135 | From inception on and before wrap-around, the completed epoch (`CompletedEpoch`) is at least 0, and every time in an epoch up to it has passed at `now`. |
| MakeCache.CheckedStep | makeCache.js:144-146 | One iteration of the bucket loop extends the bucket-check invariant by one key. |
| MakeCache.ProgressStep | makeCache.js:143-148 | One iteration of the epoch loop extends the sweep invariant by one epoch. |
| MakeCache.DueGoneShrinks | makeCache.js:138-149 | A due key removed by an earlier bucket stays removed as later buckets are checked. |
| Epochs.JsRem | makeCache.js:155 | JavaScript's `%`: the remainder has the sign of the dividend and is smaller than the divisor in magnitude. |
| Epochs.TruncQuot | makeCache.js:156 | The quotient that goes with that remainder satisfies the division identity and rounds toward zero. |
| Epochs.ExactQuotient | makeCache.js:156 | Subtracting the JavaScript remainder makes the division exact: it yields the truncated quotient. |
| Epochs.Epoch | makeCache.js:152-158 | An epoch number always lies strictly between -`maxInt` and `maxInt`. |
| Epochs.EpochCounts | makeCache.js:152-158 | From inception on, the epoch is one more than the number of whole intervals elapsed, modulo `maxInt`. It is at least 1 before wrap-around. |
| Epochs.EpochBeforeInception | makeCache.js:135-142 | Before inception the epoch is one less the whole intervals still to go: 1 in the last interval before inception, 0 in the one before that (so the completed epoch is -1 and the sweep returns at once), and negative from two intervals before on, where the sweep's stop epoch lies outside the range its walk visits. |
| Epochs.EpochMonotone | makeCache.js:152-158 | Before wrap-around, a later time never has an earlier epoch. |
| Epochs.DueEpochHasPassed | makeCache.js:135 | A time in an epoch before the current one has passed. So the sweep's completed epochs only hold times that have passed. |
| Epochs.SweepVisitsNoWrap | makeCache.js:138-142 | Without wrap-around, the cyclic walk visits exactly the epochs after the last swept one, up to and including the completed one. |
| Epochs.Next | makeCache.js:141 | `(epoch + 1) % maxInt` stays in range, and stepping back recovers the epoch. |
| Epochs.PrevEpoch | makeCache.js:139-148 | The walk starts at the epoch after `evictedEpoch`, so when it ends on the completed epoch plus one, the last epoch swept is the completed one. |
| Epochs.Steps | makeCache.js:138-142 | The number of `+1 mod maxInt` steps between two epochs is in range, and without wrap it is their difference. |
| Epochs.Step | makeCache.js:141 | One step of the walk adds exactly the current epoch to the visited set and shortens the remaining distance by one. |
| Epochs.StepsInjective | makeCache.js:138-142 | Distinct epochs lie at distinct distances on the walk. |
| UsageOrder.ListedEntry | makeCache.js:163-164 | A listed entry has a link unless it is all of the list, and then it is the newest end. The newest end is listed. So the corrected guard refuses every listed key, and an unlisted entry only when it keeps a link. |
| UsageOrder.EndsUnlinked | makeCache.js:164-170 | The list is empty exactly when `oldest` (and likewise `newest`) is missing. The oldest entry has no `older` link and the newest no `newer` link. |
| UsageOrder.WalkFollowsOrder | makeCache.js:160-179 | Following `newer` links from `oldest` visits the usage order, each key once, and covers exactly the stored keys, ending at `newest`. |
| UsageOrder.WalkSuffix | makeCache.js:160-179 | Following `newer` links from any position visits the rest of the order. |
| UsageOrder.LinksDetermined | makeCache.js:160-179 | The links are a function of the order: two item maps with the same contents that thread the same order are equal and have the same ends. |
| UsageOrder.LinkedAppend | makeCache.js:164-170 | Linking a detached entry after `newest` gives a well-linked list with the key at the end. |
| UsageOrder.NeighboursStored | makeCache.js:175-176 | The neighbours a stored entry links to are stored themselves. |
| UsageOrder.Unlink | makeCache.js:173-179 | Joining the neighbours and clearing the entry's links threads the order without the key, and no contents change. |
| UsageOrder.DeleteDetached | makeCache.js:80-82 | Deleting a detached entry keeps the remaining list well linked and removes the key from the contents. |
| UsageOrder.StoreDetached | makeCache.js:60-65 | Storing a detached entry under a key that is off the list keeps the list linked and binds the key to the new contents. |
| UsageOrder.StoredPayloads | makeCache.js:62-65 | The contents after storing an entry are the old contents updated at that key. |
| Collections.Trim | makeCache.js:126-132 | Capacity eviction leaves exactly `limit` uses when over the limit, all of them otherwise, and everything when there is no limit. |
| Collections.TrimSuffix | makeCache.js:126-132 | What eviction keeps is a suffix of the usage order: the most recently used keys, in order. |
| Collections.TrimLast | makeCache.js:74-75 | The key just set survives eviction unless the limit is 0. |
| AsWritten.AppendUseAsWritten | makeCache.js:161-171 | `appendUse` as written throws exactly when a link is truthy. Otherwise the key becomes `newest`, and the old newest entry's `newer` is the key. |
| AsWritten.OneKey | makeCache.js:164-170 | The list holding the one key `"a"` is well linked. |
| AsWritten.SoleKeyLinksItself | makeCache.js:163-169 | Appending a use of `"a"` to the list that is `"a"` alone, as written, passes the guard and links `"a"` to itself both ways. No usage order describes the result. |
| AsWritten.RemoveUseAsWritten | makeCache.js:173-179 | `removeUse` as written: keys keep their entries, the entry's links are cleared, and a falsy neighbour moves an end. |
| AsWritten.AsWrittenUnlinksTruthyNeighbours | makeCache.js:173-179 | With truthy neighbour keys, `removeUse` as written unlinks correctly and keeps the contents. |
| AsWritten.TwoKeys | makeCache.js:164-170 | The list `""` then `"b"` is well linked. |
| AsWritten.FalsyOlderBreaksList | makeCache.js:175 | Removing the use of `"b"` as written loses the oldest end and leaves `""` linked to `"b"`. No usage order describes the result. |
| AsWritten.FalsyLinkPassesAppendGuard | makeCache.js:163 | The guard of `appendUse` as written lets through an entry that is still linked to the key `""`. |
| Scenarios.SetStep | makeCache.js:54-76 | `set` with no default TTL, in terms of values: the order is moved and trimmed, and the contents are the new binding restricted to the kept keys. |
| Scenarios.GetStep | makeCache.js:45-52 | `get` returns the live value or `undefined`, dropping an expired key or refreshing a live one. |
| Scenarios.RemoveStep | makeCache.js:78-84 | `remove` drops the key from order and contents, whether or not it was there. |
| Scenarios.CountStep | makeCache.js:181-187 | `countSize` returns the number of stored keys. |
| Scenarios.SweepStep | makeCache.js:134-150 | A sweep keeps the cache valid. The due entries listed in walked buckets are gone, and every entry that is gone was due and listed in a walked bucket. |
| Scenarios.ClearStep | makeCache.js:86-93 | `clear` leaves no uses and no contents. |
| Scenarios.Restricted | makeCache.js:126-132 | Contents that are part of the new binding and are listed by the order are that binding restricted to the listed keys. |
| Scenarios.Appended | makeCache.js:74-75 | A new key under the limit is appended, and nothing is evicted. |
| Scenarios.Evicted | makeCache.js:126-132 | A new key set into a full cache evicts exactly the oldest use. |
| Scenarios.LimitScenario | tests/tests.js:7-40 | The "cache" test: the results of its ten `get` calls and six `countSize` calls are what the test expects. |
| Scenarios.FirstKey | tests/tests.js:11-16 | An empty cache has size 0 and no `'a'`; after setting `'a'` the size is 1 and `'a'` reads `'1'`. |
| Scenarios.FillUp | tests/tests.js:18-23 | Sizes 3 and 3: the fourth key evicts the first. |
| Scenarios.ReadBack | tests/tests.js:25-28 | `'a'` is gone, and `'b'`, `'c'`, `'d'` read back. |
| Scenarios.RemoveOne | tests/tests.js:30-33 | A removed key is absent, the others remain, and the size is 2. |
| Scenarios.ClearAll | tests/tests.js:35-38 | After `clear` no key reads back and the size is 0. |
| Scenarios.ExpiryScenario | tests/tests.js:42-55 | The "cache expiration" test with the 200 ms wait as a clock value: the entry is read at once, then missing, and the size goes from 1 to 0. |
| Scenarios.ReadOlder | makeCache.js:45-52 | Reading the older of two keys refreshes it, so the other becomes least recently used. |
| Scenarios.RecencyScenario | makeCache.js:45-76 | After reading `'x'`, setting a third key in a cache of two evicts `'y'`, not `'x'`. |
| Scenarios.SweepScenario | makeCache.js:134-150 | `'p'` (expiring at 100) and `'q'` (at 200) in 10 ms epochs: a sweep at 205 removes `'p'` and keeps `'q'`, whose epoch is not complete; `get` at 205 then removes `'q'`. Sizes go 2, 1, 0. |
| Scenarios.OneExpiry | makeCache.js:54-76 | Setting `'p'` with `expireIn` 100 at time 0 stores it and lists it in the bucket of epoch 11. |
| Scenarios.TwoExpiries | makeCache.js:54-76 | Setting `'q'` with `expireIn` 200 as well gives size 2 and the buckets of epochs 11 and 21. |
| Scenarios.PartialSweepFacts | makeCache.js:134-150 | A sweep at 205, which walks epoch 11 but not 21, leaves exactly `'q'`. |
| Scenarios.StaleBucketScenario | makeCache.js:134-150 | A key re-set without a TTL stays in its old bucket, yet the sweep keeps it, because `checkExpirey` reads the current entry. |

## Left out

- The `MODULE` wrapper, `moduleConfig` handling, `attachTo: 'jQuery'`,
  `exposeLocals` and the `_VARS`/`_(...)` accessor
  (makeCache.js:15-23, 98, 205-207) are module plumbing. The model exposes
  the private helpers as methods instead.
- `unconstructable` (makeCache.js:28-36), the guard against calling the
  maker with `new`, has no counterpart: Dafny objects are always
  constructed.
- The `setInterval` timer (makeCache.js:196) is left out, since timers and
  concurrency are outside the model. `EvictExpireds` is a method that a
  caller invokes with the current time.
- `HotDate` is replaced by an integer clock. `new HotDate()` becomes the
  parameter `now`, `add` becomes `+`, and `hasPassed` becomes `<`.
- Key coercion is left out. JavaScript turns every key into a property name
  (so `1` and `"1"` collide), and the model uses any type with equality.
- The model's keys are own properties only. `_.items` is a plain object
  (makeCache.js:88), so a key inherited from `Object.prototype`, such as
  `"toString"` or `"constructor"`, reads as present at makeCache.js:47,
  60, 79 and 118. `get('toString')` then runs `removeUse` on the inherited
  function, which clears both ends of the list. `set('toString', v)` skips
  `_.size++`, so `size` no longer counts the keys. `Get` ("an absent key
  changes nothing") and the invariant `size == |items|` do not hold for
  such keys.
  The entry's `key` field (makeCache.js:63) is never read, so it is not
  stored.
- `MakeCache.Cache.constructor`: takes `limit` as a natural number or none,
  and requires a non-negative `evictionInterval`. With a negative limit,
  `evictSurplus` loops forever on an empty cache. With a negative interval,
  epoch numbers run backwards.
- `MakeCache.Cache.EvictExpireds`: requires `inception <= now`. This is the
  simplest bound. The timer only fires after construction, so it always
  holds. The source's sweep terminates for every `now` later than
  `inception` - 2 * `evictionInterval`, so the bound also excludes the two
  intervals before inception: in the last one the completed epoch is 0 and
  the sweep walks epoch 0; in the one before, it is -1 and the sweep
  returns at once. From two intervals before inception on, the completed
  epoch is -2 or less. The source's walk only visits epochs from 0 to
  `maxInt` - 1, so it never reaches its stop and does not terminate
  (`Epochs.EpochBeforeInception`).
- Epoch wrap-around past `maxInt` is modelled by the arithmetic (`Next`,
  `Steps`, `Epoch`). Below wrap-around, the lemmas relating epochs to time
  (`EpochMonotone`, `DueEpochHasPassed`, `SweepVisitsNoWrap`,
  `MakeCache.Cache.CompletedEpochHasPassed`) require it; after it, the
  epoch can be 0 and the completed epoch -1.
- `MakeCache.Cache.Set`: states the new contents as a part of the old ones
  plus the new binding (`SubMap`), with the exact usage order. The exact
  contents follow as the old contents restricted to the keys that order
  lists; `Scenarios.SetStep` states that form.
- `Scenarios.SetStep`: requires no module default TTL and a non-negative
  `expireIn`. These are the settings the tests use; `Set` itself covers
  the general case.
- The "many cache expirations" test (tests/tests.js:58-86) depends on
  wall-clock timing and `setTimeout`, so it is not modelled as written.
  `Scenarios.SweepScenario` shows its mechanism on two entries: the sweep,
  not `get`, removes an expired entry and `countSize` drops.
- `MakeCache.Cache.Valid`: says nothing about `pendingEvictions`. In
  general no invariant ties a stored entry's `expireAt` to the bucket that
  lists it. So `EvictExpireds` proves that due entries listed in walked
  buckets go, and that nothing else goes. It does not prove that every
  stored entry that expired in a completed epoch goes. A scenario supplies
  that link from the `set` calls it makes.
- The scenarios use one-character keys and values in place of the tests'
  one-letter strings.
- Only the logic of the two thrown errors is modelled, as `Outcome.Fail`
  with a `CacheError`; the error messages are not.

## Findings

| source | as written | input that shows it | evidently intended | confidence | as-written member | corrected member |
|---|---|---|---|---|---|---|
| makeCache.js:175-176 | `removeUse` tests `item.older` and `item.newer` for truthiness | keys `""` then `"b"`, then `set('b', …)` or `get('b')`: `removeUse('b')` finds the falsy `older` `""`, sets `oldest` to `undefined` and leaves `""` linked to `"b"`; with a limit, a later `evictSurplus` then calls `remove(undefined)` forever | test the presence of the links (`!== undefined`) | not executed | AsWritten.FalsyOlderBreaksList | MakeCache.Cache.RemoveUse |
| makeCache.js:163 | `appendUse` refuses an entry only when a link is truthy | the entry `"b"` whose `older` is `""` passes the guard while still linked | refuse any entry with a link present | not executed | AsWritten.FalsyLinkPassesAppendGuard | MakeCache.Cache.AppendUse |
| makeCache.js:163-169 | the guard of `appendUse` tests the links only, not whether the key is in the list | the list holding only `"a"`, then `appendUse('a')`: `"a"` has no links, so the guard passes, and `"a"` gets `older` and `newer` both `"a"`; every caller in the file removes the use first, so the defect is latent | refuse any key still in the list, including the one that is all of it | not executed | AsWritten.SoleKeyLinksItself | MakeCache.Cache.AppendUse |
