/**
 * `SearchCache`: a bounded cache of search results kept in insertion order,
 * whose entries expire a fixed time after they were stored. The oldest
 * insertion is evicted first; reading an entry does not refresh it.
 */
module SearchCaching {
  import opened Wrappers

  type Id = string

  /** One cache entry: the search id, the stored result table and when it was stored. */
  datatype Item<D> = Item(id: Id, df: D, timestamp: int)

  /** `popitem(last=False)` on an empty cache raises `KeyError`. */
  datatype CacheError = PopFromEmpty

  /** Clock readings are in microseconds, the resolution of `datetime`. */
  const MicrosPerHour: int := 3_600_000_000
  const DefaultMaxSize: int := 100
  const DefaultExpiryHours: int := 24

  // ---------------------------------------------------------------------
  // The entries as a sequence in insertion order

  predicate HasId<D>(items: seq<Item<D>>, id: Id)
  {
    exists k | 0 <= k < |items| :: items[k].id == id
  }

  predicate DistinctIds<D>(items: seq<Item<D>>)
  {
    forall p, q | 0 <= p < q < |items| :: items[p].id != items[q].id
  }

  /** `now - timestamp > expiry`: an entry exactly `expiry` old is still live. */
  predicate Expired(now: int, timestamp: int, expiry: int)
  {
    now - timestamp > expiry
  }

  /** The entries still live at `now`, in their original order. */
  function Unexpired<D>(items: seq<Item<D>>, now: int, expiry: int): (live: seq<Item<D>>)
    ensures |live| <= |items|
    decreases |items|
  {
    if items == [] then []
    else
      var last := items[|items| - 1];
      Unexpired(items[..|items| - 1], now, expiry) + (if Expired(now, last.timestamp, expiry) then [] else [last])
  }

  /** The entries whose id is not in `ids`, in their original order. */
  function WithoutIds<D>(items: seq<Item<D>>, ids: seq<Id>): (r: seq<Item<D>>)
    ensures |r| <= |items|
    decreases |items|
  {
    if items == [] then []
    else
      var last := items[|items| - 1];
      WithoutIds(items[..|items| - 1], ids) + (if last.id in ids then [] else [last])
  }

  /** The ids of the expired entries, in order: the list `_cleanup_expired` builds. */
  function ExpiredIds<D>(items: seq<Item<D>>, now: int, expiry: int): (ids: seq<Id>)
    ensures |ids| <= |items|
    decreases |items|
  {
    if items == [] then []
    else
      var last := items[|items| - 1];
      ExpiredIds(items[..|items| - 1], now, expiry) + (if Expired(now, last.timestamp, expiry) then [last.id] else [])
  }

  /** The position of the entry with key `id`, if any. */
  function IndexOf<D>(items: seq<Item<D>>, id: Id): (r: Option<nat>)
    ensures r.Some? ==> r.value < |items| && items[r.value].id == id
    ensures r.None? <==> !HasId(items, id)
    decreases |items|
  {
    if items == [] then None
    else if items[|items| - 1].id == id then Some(|items| - 1)
    else
      var r := IndexOf(items[..|items| - 1], id);
      assert forall k | 0 <= k < |items| - 1 :: items[..|items| - 1][k] == items[k];
      r
  }

  // ---------------------------------------------------------------------
  // Properties of the filters

  /** The live entries are exactly the entries not expired at `now`. */
  lemma {:induction false} UnexpiredMembers<D>(items: seq<Item<D>>, now: int, expiry: int)
    ensures forall it | it in Unexpired(items, now, expiry) :: it in items && !Expired(now, it.timestamp, expiry)
    ensures forall it | it in items && !Expired(now, it.timestamp, expiry) :: it in Unexpired(items, now, expiry)
    decreases |items|
  {
    if items != [] {
      var front := items[..|items| - 1];
      UnexpiredMembers(front, now, expiry);
      assert items == front + [items[|items| - 1]];
    }
  }

  /** Deleting the keys `ids` leaves exactly the entries whose key is not among them. */
  lemma {:induction false} WithoutIdsMembers<D>(items: seq<Item<D>>, ids: seq<Id>)
    ensures forall it | it in WithoutIds(items, ids) :: it in items && it.id !in ids
    ensures forall it | it in items && it.id !in ids :: it in WithoutIds(items, ids)
    decreases |items|
  {
    if items != [] {
      var front := items[..|items| - 1];
      WithoutIdsMembers(front, ids);
      assert items == front + [items[|items| - 1]];
    }
  }

  /** `_cleanup_expired` lists the key of every expired entry and no other key. */
  lemma {:induction false} ExpiredIdsMembers<D>(items: seq<Item<D>>, now: int, expiry: int)
    ensures forall x | x in ExpiredIds(items, now, expiry) ::
      exists k | 0 <= k < |items| :: items[k].id == x && Expired(now, items[k].timestamp, expiry)
    ensures forall k | 0 <= k < |items| && Expired(now, items[k].timestamp, expiry) ::
      items[k].id in ExpiredIds(items, now, expiry)
    decreases |items|
  {
    if items != [] {
      var n := |items|;
      var front := items[..n - 1];
      ExpiredIdsMembers(front, now, expiry);
      var e := ExpiredIds(front, now, expiry);
      forall x | x in ExpiredIds(items, now, expiry)
        ensures exists k | 0 <= k < n :: items[k].id == x && Expired(now, items[k].timestamp, expiry)
      {
        if x in e {
          var k :| 0 <= k < n - 1 && front[k].id == x && Expired(now, front[k].timestamp, expiry);
          assert items[k] == front[k];
        } else {
          assert items[n - 1].id == x;
        }
      }
      forall k | 0 <= k < n && Expired(now, items[k].timestamp, expiry)
        ensures items[k].id in ExpiredIds(items, now, expiry)
      {
        if k < n - 1 {
          assert front[k] == items[k];
        }
      }
    }
  }

  lemma DistinctSnoc<D>(items: seq<Item<D>>, it: Item<D>)
    requires DistinctIds(items) && forall x | x in items :: x.id != it.id
    ensures DistinctIds(items + [it])
  {
    var s := items + [it];
    forall p, q | 0 <= p < q < |s| ensures s[p].id != s[q].id {
      if q == |items| {
        assert s[p] in items;
      } else {
        assert s[p] == items[p] && s[q] == items[q];
      }
    }
  }

  lemma DistinctFront<D>(items: seq<Item<D>>)
    requires DistinctIds(items) && items != []
    ensures DistinctIds(items[..|items| - 1])
    ensures forall x | x in items[..|items| - 1] :: x.id != items[|items| - 1].id
  {
    var front := items[..|items| - 1];
    forall x | x in front ensures x.id != items[|items| - 1].id {
      var k :| 0 <= k < |front| && front[k] == x;
      assert items[k] == x;
    }
  }

  /** Dropping expired entries keeps the keys distinct. */
  lemma {:induction false} UnexpiredDistinct<D>(items: seq<Item<D>>, now: int, expiry: int)
    requires DistinctIds(items)
    ensures DistinctIds(Unexpired(items, now, expiry))
    decreases |items|
  {
    if items != [] {
      var front := items[..|items| - 1];
      DistinctFront(items);
      UnexpiredDistinct(front, now, expiry);
      UnexpiredMembers(front, now, expiry);
      var last := items[|items| - 1];
      if !Expired(now, last.timestamp, expiry) {
        DistinctSnoc(Unexpired(front, now, expiry), last);
      }
    }
  }

  /** Deleting keys keeps the remaining keys distinct. */
  lemma {:induction false} WithoutIdsDistinct<D>(items: seq<Item<D>>, ids: seq<Id>)
    requires DistinctIds(items)
    ensures DistinctIds(WithoutIds(items, ids))
    decreases |items|
  {
    if items != [] {
      var front := items[..|items| - 1];
      DistinctFront(items);
      WithoutIdsDistinct(front, ids);
      WithoutIdsMembers(front, ids);
      var last := items[|items| - 1];
      if last.id !in ids {
        DistinctSnoc(WithoutIds(front, ids), last);
      }
    }
  }

  /** Expiry keeps the order of insertion: it filters each part of a split separately. */
  lemma {:induction false} UnexpiredAppend<D>(xs: seq<Item<D>>, ys: seq<Item<D>>, now: int, expiry: int)
    ensures Unexpired(xs + ys, now, expiry) == Unexpired(xs, now, expiry) + Unexpired(ys, now, expiry)
    decreases |ys|
  {
    if ys == [] {
      assert xs + ys == xs;
    } else {
      var n := |ys|;
      var zs := xs + ys;
      assert zs[..|zs| - 1] == xs + ys[..n - 1];
      assert zs[|zs| - 1] == ys[n - 1];
      UnexpiredAppend(xs, ys[..n - 1], now, expiry);
    }
  }

  /** Deleting one more key after some keys is deleting them all at once. */
  lemma {:induction false} WithoutIdsThenOne<D>(items: seq<Item<D>>, ids: seq<Id>, id: Id)
    ensures WithoutIds(WithoutIds(items, ids), [id]) == WithoutIds(items, ids + [id])
    decreases |items|
  {
    if items != [] {
      var front := items[..|items| - 1];
      var last := items[|items| - 1];
      WithoutIdsThenOne(front, ids, id);
      var w := WithoutIds(front, ids);
      assert (last.id in ids + [id]) == (last.id in ids || last.id == id);
      if last.id !in ids {
        var wl := w + [last];
        assert wl[..|wl| - 1] == w;
        assert wl[|wl| - 1] == last;
      } else {
        assert WithoutIds(items, ids) == w;
        assert WithoutIds(items, ids + [id]) == WithoutIds(front, ids + [id]) + [];
      }
    }
  }

  /** Keys that no entry has do not change what deleting removes. */
  lemma {:induction false} WithoutIdsExtra<D>(items: seq<Item<D>>, ids: seq<Id>, extra: seq<Id>)
    requires forall k | 0 <= k < |items| :: items[k].id !in extra
    ensures WithoutIds(items, ids + extra) == WithoutIds(items, ids)
    decreases |items|
  {
    if items != [] {
      var front := items[..|items| - 1];
      assert forall k | 0 <= k < |front| :: front[k] == items[k];
      WithoutIdsExtra(front, ids, extra);
    }
  }

  lemma {:induction false} WithoutIdsNone<D>(items: seq<Item<D>>)
    ensures WithoutIds(items, []) == items
    decreases |items|
  {
    if items != [] {
      WithoutIdsNone(items[..|items| - 1]);
    }
  }

  /** Deleting a key that is present removes exactly one entry. */
  lemma {:induction false} WithoutIdsSize<D>(items: seq<Item<D>>, id: Id, k: int)
    requires DistinctIds(items) && 0 <= k < |items| && items[k].id == id
    ensures |WithoutIds(items, [id])| == |items| - 1
    decreases |items|
  {
    var front := items[..|items| - 1];
    DistinctFront(items);
    if k == |items| - 1 {
      forall j | 0 <= j < |front| ensures front[j].id !in [id] {
        assert front[j] in front;
      }
      WithoutIdsExtra(front, [], [id]);
      WithoutIdsNone(front);
      assert [] + [id] == [id];
    } else {
      assert front[k] == items[k];
      WithoutIdsSize(front, id, k);
    }
  }

  predicate NoDuplicates(ids: seq<Id>)
  {
    forall p, q | 0 <= p < q < |ids| :: ids[p] != ids[q]
  }

  /** The expired keys are distinct when all keys are. */
  lemma {:induction false} ExpiredIdsDistinct<D>(items: seq<Item<D>>, now: int, expiry: int)
    requires DistinctIds(items)
    ensures NoDuplicates(ExpiredIds(items, now, expiry))
    decreases |items|
  {
    if items != [] {
      var front := items[..|items| - 1];
      var last := items[|items| - 1];
      DistinctFront(items);
      ExpiredIdsDistinct(front, now, expiry);
      ExpiredIdsMembers(front, now, expiry);
      var e := ExpiredIds(front, now, expiry);
      assert NoDuplicates(e);
      forall p | 0 <= p < |e| ensures e[p] != last.id {
        assert e[p] in e;
        var k :| 0 <= k < |front| && front[k].id == e[p] && Expired(now, front[k].timestamp, expiry);
        assert front[k] in front;
      }
      if Expired(now, last.timestamp, expiry) {
        var all := e + [last.id];
        assert ExpiredIds(items, now, expiry) == all;
        forall p, q | 0 <= p < q < |all| ensures all[p] != all[q] {
          if q < |e| {
            assert all[p] == e[p] && all[q] == e[q];
          } else {
            assert all[p] == e[p] && all[q] == last.id;
          }
        }
      } else {
        assert ExpiredIds(items, now, expiry) == e + [];
        assert e + [] == e;
      }
    }
  }

  /**
   * Deleting every expired key, one by one as `_cleanup_expired` does,
   * leaves exactly the live entries in their order, since keys are unique.
   */
  lemma {:induction false} DeleteExpiredIsUnexpired<D>(items: seq<Item<D>>, now: int, expiry: int)
    requires DistinctIds(items)
    ensures WithoutIds(items, ExpiredIds(items, now, expiry)) == Unexpired(items, now, expiry)
    decreases |items|
  {
    if items != [] {
      var front := items[..|items| - 1];
      var last := items[|items| - 1];
      DistinctFront(items);
      DeleteExpiredIsUnexpired(front, now, expiry);
      var e := ExpiredIds(front, now, expiry);
      forall k | 0 <= k < |front| ensures front[k].id !in [last.id] {
        assert front[k] in front;
      }
      if Expired(now, last.timestamp, expiry) {
        WithoutIdsExtra(front, e, [last.id]);
      } else {
        ExpiredIdsMembers(front, now, expiry);
        assert last.id !in e;
        assert e + [] == e;
      }
    }
  }

  /** Every key of `ids` is a key of `items`. */
  predicate AllPresent<D>(items: seq<Item<D>>, ids: seq<Id>)
  {
    forall x | x in ids :: HasId(items, x)
  }

  lemma ExpiredIdsPresent<D>(items: seq<Item<D>>, now: int, expiry: int)
    ensures AllPresent(items, ExpiredIds(items, now, expiry))
  {
    ExpiredIdsMembers(items, now, expiry);
  }

  /**
   * One round of the deletion loop of `_cleanup_expired`: the next key is
   * present, and deleting it extends the deleted prefix by one key.
   */
  lemma CleanupStep<D>(start: seq<Item<D>>, expired: seq<Id>, m: int)
    requires 0 <= m < |expired|
    requires NoDuplicates(expired) && AllPresent(start, expired)
    ensures HasId(WithoutIds(start, expired[..m]), expired[m])
    ensures WithoutIds(WithoutIds(start, expired[..m]), [expired[m]]) == WithoutIds(start, expired[..m + 1])
  {
    DeletedLater(start, expired, m);
    WithoutIdsThenOne(start, expired[..m], expired[m]);
    assert expired[..m + 1] == expired[..m] + [expired[m]];
  }

  /** The next key to delete is still present after the ones before it are gone. */
  lemma DeletedLater<D>(start: seq<Item<D>>, expired: seq<Id>, m: int)
    requires 0 <= m < |expired|
    requires NoDuplicates(expired) && AllPresent(start, expired)
    ensures HasId(WithoutIds(start, expired[..m]), expired[m])
  {
    assert expired[m] in expired;
    var k :| 0 <= k < |start| && start[k].id == expired[m];
    assert start[k] in start;
    assert expired[m] !in expired[..m] by {
      forall p | 0 <= p < m ensures expired[..m][p] != expired[m] {
        assert expired[..m][p] == expired[p];
      }
    }
    var w := WithoutIds(start, expired[..m]);
    WithoutIdsMembers(start, expired[..m]);
    assert start[k] in w;
    var j :| 0 <= j < |w| && w[j] == start[k];
  }

  // ---------------------------------------------------------------------
  // The cache

  /** At most this many entries fit; a size of zero or below admits none. */
  function Capacity(maxSize: int): nat
  {
    if maxSize > 0 then maxSize else 0
  }

  class SearchCache<D> {
    /** The `OrderedDict`, oldest insertion first. */
    var items: seq<Item<D>>
    const maxSize: int
    /** `timedelta(hours=expiry_hours)`, in microseconds. */
    const expiry: int

    ghost predicate Valid()
      reads this
    {
      DistinctIds(items) && |items| <= Capacity(maxSize)
    }

    /** `SearchCache(max_size, expiry_hours)`: an empty cache. */
    constructor(maxSize: int, expiryHours: int)
      ensures Valid()
      ensures items == [] && this.maxSize == maxSize && expiry == expiryHours * MicrosPerHour
    {
      items := [];
      this.maxSize := maxSize;
      expiry := expiryHours * MicrosPerHour;
    }

    /** `SearchCache()` with its default arguments, as the module-level cache is built. */
    constructor Default()
      ensures Valid()
      ensures items == [] && maxSize == DefaultMaxSize && expiry == DefaultExpiryHours * MicrosPerHour
      ensures Capacity(maxSize) == 100 && expiry == 86_400_000_000
    {
      items := [];
      maxSize := DefaultMaxSize;
      expiry := DefaultExpiryHours * MicrosPerHour;
    }

    /** `del self.cache[id]`. */
    method Delete(id: Id)
      requires Valid() && HasId(items, id)
      modifies this
      ensures Valid()
      ensures items == WithoutIds(old(items), [id])
      ensures |items| == |old(items)| - 1
    {
      var k :| 0 <= k < |items| && items[k].id == id;
      WithoutIdsDistinct(items, [id]);
      WithoutIdsSize(items, id, k);
      items := WithoutIds(items, [id]);
    }

    /**
     * `_cleanup_expired`: list the keys of the expired entries (a list
     * comprehension, here the function `ExpiredIds`), then delete them one
     * by one.
     */
    method CleanupExpired(now: int)
      requires Valid()
      modifies this
      ensures Valid()
      ensures items == Unexpired(old(items), now, expiry)
    {
      var expired := ExpiredIds(items, now, expiry);
      ghost var start := items;
      ExpiredIdsDistinct(start, now, expiry);
      ExpiredIdsPresent(start, now, expiry);
      WithoutIdsNone(start);
      assert expired[..0] == [];
      var m := 0;
      while m < |expired|
        invariant 0 <= m <= |expired|
        invariant Valid()
        invariant items == WithoutIds(start, expired[..m])
      {
        CleanupStep(start, expired, m);
        Delete(expired[m]);
        m := m + 1;
      }
      assert expired[..m] == expired;
      DeleteExpiredIsUnexpired(start, now, expiry);
    }

    /**
     * `add(df)`: drop the expired entries; when the cache is then at or above
     * its size, evict the oldest insertion; store `df` under the fresh `id`,
     * stamped `now`, as the newest entry.
     */
    method Add(df: D, id: Id, now: int) returns (r: Result<Id, CacheError>)
      requires Valid() && !HasId(items, id)
      modifies this
      ensures Valid()
      ensures var live := Unexpired(old(items), now, expiry);
        if |live| >= maxSize && live == [] then
          r == Failure(PopFromEmpty) && items == live
        else
          && r == Success(id)
          && items == (if |live| >= maxSize then live[1..] else live) + [Item(id, df, now)]
    {
      ghost var before := items;
      CleanupExpired(now);
      UnexpiredMembers(before, now, expiry);
      assert forall x | x in items :: x in before;
      if |items| >= maxSize {
        if items == [] {
          return Failure(PopFromEmpty);
        }
        // popitem(last=False)
        assert forall x | x in items[1..] :: x in items;
        items := items[1..];
      }
      assert forall x | x in items :: x.id != id;
      DistinctSnoc(items, Item(id, df, now));
      items := items + [Item(id, df, now)];
      return Success(id);
    }

    /**
     * `get(id)`: nothing for an unknown id; an expired entry is deleted and
     * nothing is returned; otherwise the stored table, with the order of the
     * entries left as it was.
     */
    method Get(id: Id, now: int) returns (r: Option<D>)
      requires Valid()
      modifies this
      ensures Valid()
      ensures !HasId(old(items), id) ==> r == None && items == old(items)
      ensures forall k | 0 <= k < |old(items)| && old(items)[k].id == id ::
        if Expired(now, old(items)[k].timestamp, expiry) then
          r == None && items == WithoutIds(old(items), [id])
        else
          r == Some(old(items)[k].df) && items == old(items)
    {
      var k := IndexOf(items, id);
      if k.None? {
        return None;
      }
      var entry := items[k.value];
      if now - entry.timestamp > expiry {
        Delete(id);
        return None;
      }
      return Some(entry.df);
    }
  }
}
