/** `appendUse` and `removeUse` (makeCache.js:161-179) as written, over keys
    that keep JavaScript's distinction between falsy and truthy keys, and the
    lists they break.

    Both test the neighbour links `item.older` and `item.newer` for
    truthiness rather than presence, so a neighbour whose key is falsy, the
    empty string or the number 0, is taken for a missing link. And the guard
    of `appendUse` tests the links only, so the key that is all of the list,
    which has no links, passes it and is linked to itself. The cache itself
    (MakeCache.Cache.AppendUse and MakeCache.Cache.RemoveUse) tests presence
    and refuses any key still in the list. */
module AsWritten {
  import opened Wrappers
  import opened Collections
  import opened UsageOrder

  /** A key as a caller passes it: a string or a number. */
  datatype JsKey = Str(s: string) | Num(n: int)

  /** JavaScript truthiness of an optional key: absent, "" and 0 are false. */
  predicate Truthy(k: Option<JsKey>) {
    match k
    case None => false
    case Some(Str(s)) => s != ""
    case Some(Num(n)) => n != 0
  }

  /** The item map and the two ends of the usage list. */
  datatype Links = Links(items: map<JsKey, Entry<JsKey, int>>, oldest: Option<JsKey>, newest: Option<JsKey>)

  /** The guard of `appendUse` as written: it refuses an entry only when
      one of its links is truthy. */
  predicate AppendRefusesAsWritten(item: Entry<JsKey, int>) {
    Truthy(item.newer) || Truthy(item.older)
  }

  /** `appendUse` as written: `None` when it throws. A refused entry aside,
      an empty list (no `newest`, an absence test) gets `key` as both ends;
      otherwise `key` is linked in after `newest`, whatever `newest` is. */
  function AppendUseAsWritten(l: Links, key: JsKey): (r: Option<Links>)
    requires key in l.items
    requires l.newest.Some? ==> l.newest.value in l.items
    ensures r.None? <==> AppendRefusesAsWritten(l.items[key])
    ensures r.Some? ==> r.value.newest == Some(key) && r.value.items.Keys == l.items.Keys
    ensures r.Some? && l.newest.Some? ==> r.value.items[l.newest.value].newer == Some(key)
  {
    var item := l.items[key];
    if AppendRefusesAsWritten(item) then None
    else if l.newest.None? then Some(l.(oldest := Some(key), newest := Some(key)))
    else
      var items1 := l.items[key := item.(older := l.newest)];
      Some(Links(items1[l.newest.value := items1[l.newest.value].(newer := Some(key))], l.oldest, Some(key)))
  }

  /** `removeUse` as written: a falsy `older` moves the oldest end instead of
      relinking the older neighbour, a falsy `newer` likewise the newest
      end; then the entry's own links are cleared. It needs the truthy
      neighbours to be stored, as the source reads a field of each. */
  function RemoveUseAsWritten(l: Links, key: JsKey): (r: Links)
    requires key in l.items
    requires Truthy(l.items[key].older) ==> l.items[key].older.value in l.items
    requires Truthy(l.items[key].newer) ==> l.items[key].newer.value in l.items
    ensures r.items.Keys == l.items.Keys
    ensures r.items[key].older.None? && r.items[key].newer.None?
    ensures !Truthy(l.items[key].older) ==> r.oldest == l.items[key].newer
    ensures !Truthy(l.items[key].newer) ==> r.newest == l.items[key].older
  {
    var item := l.items[key];
    var items1 := if Truthy(item.older) then l.items[item.older.value := l.items[item.older.value].(newer := item.newer)] else l.items;
    var oldest1 := if Truthy(item.older) then l.oldest else item.newer;
    var items2 := if Truthy(item.newer) then items1[item.newer.value := items1[item.newer.value].(older := item.older)] else items1;
    var newest2 := if Truthy(item.newer) then l.newest else item.older;
    Links(items2[key := item.(older := None, newer := None)], oldest1, newest2)
  }

  /** As long as the neighbours of `key` have truthy keys, `removeUse` as
      written unlinks `key` correctly: the list threads the other keys in
      their order and no contents change. */
  lemma AsWrittenUnlinksTruthyNeighbours(l: Links, order: seq<JsKey>, key: JsKey)
    requires Linked(l.items, l.oldest, l.newest, order) && key in order && key in l.items
    requires l.items[key].older.Some? ==> Truthy(l.items[key].older)
    requires l.items[key].newer.Some? ==> Truthy(l.items[key].newer)
    ensures RemoveUseAsWritten.requires(l, key)
    ensures var r := RemoveUseAsWritten(l, key);
      Linked(r.items, r.oldest, r.newest, Without(order, key)) && Payloads(r.items) == Payloads(l.items)
  {
    NeighboursStored(l.items, l.oldest, l.newest, order, key);
    var item := l.items[key];
    var items1 := if Truthy(item.older) then l.items[item.older.value := l.items[item.older.value].(newer := item.newer)] else l.items;
    var oldest1 := if Truthy(item.older) then l.oldest else item.newer;
    var items2 := if Truthy(item.newer) then items1[item.newer.value := items1[item.newer.value].(older := item.older)] else items1;
    var newest2 := if Truthy(item.newer) then l.newest else item.older;
    Unlink(l.items, l.oldest, l.newest, order, key, items1, items2, items2[key := item.(older := None, newer := None)], oldest1, newest2);
  }

  /** The list "" then "b": the entry "" is the oldest and links to "b". */
  function TwoKeys(): (l: Links)
    ensures Linked(l.items, l.oldest, l.newest, [Str(""), Str("b")])
  {
    var l := Links(map[Str("") := Entry(1, None, None, Some(Str("b"))),
                       Str("b") := Entry(2, None, Some(Str("")), None)],
                   Some(Str("")), Some(Str("b")));
    assert Str("") != Str("b");
    assert LinkedAt(l.items, [Str(""), Str("b")], 0);
    assert LinkedAt(l.items, [Str(""), Str("b")], 1);
    assert Elems([Str(""), Str("b")]) == {Str(""), Str("b")};
    l
  }

  /** Removing the use of "b" from that list as written reads its falsy
      `older` as missing: it empties the oldest end and leaves the entry ""
      linked to the removed "b", so no order at all describes the result. */
  lemma FalsyOlderBreaksList()
    ensures var r := RemoveUseAsWritten(TwoKeys(), Str("b"));
      && r.oldest == None && r.newest == Some(Str(""))
      && r.items[Str("")].newer == Some(Str("b"))
      && forall order :: !Linked(r.items, r.oldest, r.newest, order)
  {
    var r := RemoveUseAsWritten(TwoKeys(), Str("b"));
    forall order ensures !Linked(r.items, r.oldest, r.newest, order) {
      if order == [] {
        assert r.newest != At(order, |order| - 1);
      } else {
        assert r.oldest != At(order, 0);
      }
    }
  }

  /** The guard of `appendUse` as written lets an entry through that is
      still linked, when its neighbour's key is falsy. */
  lemma FalsyLinkPassesAppendGuard()
    ensures var item := TwoKeys().items[Str("b")];
      item.older.Some? && !AppendRefusesAsWritten(item)
    ensures AppendUseAsWritten(TwoKeys(), Str("b")).Some?
  {
  }

  /** The list that holds the one key "a". */
  function OneKey(): (l: Links)
    ensures Linked(l.items, l.oldest, l.newest, [Str("a")])
  {
    var l := Links(map[Str("a") := Entry(1, None, None, None)], Some(Str("a")), Some(Str("a")));
    assert LinkedAt(l.items, [Str("a")], 0);
    assert Elems([Str("a")]) == {Str("a")};
    l
  }

  /** Appending a use of "a" to the list that is "a" alone, as written,
      passes the guard, as "a" has no links, and links "a" to itself both
      ways, so no order at all describes the result. */
  lemma SoleKeyLinksItself()
    ensures var r := AppendUseAsWritten(OneKey(), Str("a"));
      && r.Some?
      && r.value.items[Str("a")].older == Some(Str("a"))
      && r.value.items[Str("a")].newer == Some(Str("a"))
      && forall order :: !Linked(r.value.items, r.value.oldest, r.value.newest, order)
  {
    var r := AppendUseAsWritten(OneKey(), Str("a")).value;
    forall order ensures !Linked(r.items, r.oldest, r.newest, order) {
      if order != [] && r.oldest == At(order, 0) {
        assert !LinkedAt(r.items, order, 0);
      }
    }
  }
}
