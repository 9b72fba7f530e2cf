/** The cache of src/lib/cache.c over the doubly linked list. Every operation has the effect on the
    list of entries that CacheSpec gives it; the clock and the outcome of the allocations are
    arguments. */
module Caches {
  import opened Collections
  import opened LinkedLists
  import opened CacheSpec

  /** is_expired, for a stored entry. */
  predicate IsExpired(e: Entry, now: int) {
    now > e.expiry
  }

  class Cache {
    const entries: LinkedList<Entry>
    const maxSize: nat
    const defaultTtl: int
    /** All nodes that have been in the list. */
    ghost var repr: set<Node<Entry>>

    ghost function Cfg(): Config {
      Config(maxSize, defaultTtl)
    }

    ghost predicate Valid()
      reads this, entries, entries.nodes
    {
      entries.Valid() && forall n | n in entries.nodes :: n in repr
    }

    /** The stored entries, oldest first. */
    ghost function Contents(): seq<Entry>
      reads this, entries
    {
      entries.Items()
    }

    /** cache_create. */
    constructor (maxSize: nat, defaultTtl: int)
      ensures Valid() && Contents() == []
      ensures Cfg() == Config(maxSize, defaultTtl)
      ensures fresh(entries) && repr == {}
    {
      this.maxSize := maxSize;
      this.defaultTtl := defaultTtl;
      entries := new LinkedList();
      repr := {};
    }

    /** cache_remove: scan for the key with a running index, then pop by that index. */
    method Remove(key: string)
      requires Valid()
      modifies `repr, entries, repr
      ensures Valid()
      ensures Contents() == RemoveKey(old(Contents()), key)
      ensures repr == old(repr)
    {
      var index := 0;
      var node := entries.head;
      while node != null
        invariant index <= |entries.nodes| && node == At(entries.nodes, index)
        invariant forall j | 0 <= j < index :: Contents()[j].key != key
        decreases |entries.nodes| - index
      {
        assert LinkAt(entries.nodes, index);
        var entry := node.item;
        if entry.key == key {
          assert IndexOf(Contents(), key) == index;
          assert RemoveKey(Contents(), key) == Without(Contents(), index);
          hide RemoveKey, Without, IndexOf, ItemsOf;
          var _, _ := entries.Pop(index);
          return;
        }
        index := index + 1;
        node := node.front;
      }
      assert IndexOf(Contents(), key) == |Contents()|;
    }

    /** The check of cache_set for a full cache: the first entry of the list goes. */
    method EvictIfFull()
      requires Valid()
      modifies `repr, entries, repr
      ensures Valid()
      ensures Contents() == var es := old(Contents());
                            if |es| >= maxSize && |es| > 0 then RemoveKey(es, es[0].key) else es
      ensures repr == old(repr)
    {
      hide RemoveKey;
      if entries.size >= maxSize {
        if entries.head != null {
          var oldest := entries.head.item;
          assert oldest == Contents()[0];
          Remove(oldest.key);
        }
      }
    }

    method Store(entry: Entry)
      requires Valid()
      modifies `repr, entries, repr
      ensures Valid() && Contents() == old(Contents()) + [entry]
      ensures fresh(repr - old(repr))
    {
      var _ := entries.Append(entry, true);
      repr := repr + {entries.nodes[entries.size - 1]};
      assert forall n | n in old(entries.nodes) :: n in repr;
      assert entries.nodes == old(entries.nodes) + [entries.nodes[entries.size - 1]];
    }

    /** cache_set; memory says whether all four allocations succeed. */
    method Set(key: string, data: Bytes, ttl: int, now: int, memory: bool) returns (code: int)
      requires Valid()
      modifies `repr, entries, repr
      ensures Valid()
      ensures code == if memory then 0 else -1
      ensures Contents() == AfterSet(old(Contents()), Cfg(), key, data, ttl, now, memory)
      ensures fresh(repr - old(repr))
    {
      hide RemoveKey;
      Remove(key);
      EvictIfFull();
      if !memory {
        return -1;
      }
      var entry := Entry(key, data, now, now + (if ttl > 0 then ttl else defaultTtl));
      Store(entry);
      return 0;
    }

    /** cache_get; memory says whether the copy can be allocated. */
    method Get(key: string, now: int, memory: bool) returns (data: Option<Bytes>)
      requires Valid()
      modifies `repr, entries, repr
      ensures Valid()
      ensures Contents() == AfterGet(old(Contents()), key, now)
      ensures data == match Find(old(Contents()), key, now)
                      case Found(d) => if memory then Some(d) else None
                      case _ => None
      ensures repr == old(repr)
    {
      ghost var i := 0;
      var node := entries.head;
      while node != null
        invariant i <= |entries.nodes| && node == At(entries.nodes, i)
        invariant forall j | 0 <= j < i :: Contents()[j].key != key
        decreases |entries.nodes| - i
      {
        assert LinkAt(entries.nodes, i);
        var entry := node.item;
        if entry.key == key {
          assert IndexOf(Contents(), key) == i;
          if IsExpired(entry, now) {
            Remove(key);
            return None;
          }
          return if memory then Some(entry.data) else None;
        }
        node := node.front;
        i := i + 1;
      }
      assert IndexOf(Contents(), key) == |Contents()|;
      return None;
    }

    /** cache_clear. */
    method Clear()
      requires Valid()
      modifies entries
      ensures Valid() && Contents() == []
    {
      var _ := entries.Clear();
    }

    /** One operation of a run, as CacheSpec.Step describes it. */
    method Perform(ev: Event) returns (data: Option<Bytes>)
      requires Valid()
      modifies `repr, entries, repr
      ensures Valid() && Contents() == Step(old(Contents()), Cfg(), ev)
      ensures ev.op.Get? ==> data == match Find(old(Contents()), ev.op.key, ev.now)
                                     case Found(d) => Some(d)
                                     case _ => None
      ensures fresh(repr - old(repr))
    {
      data := None;
      match ev.op
      case Set(key, bytes, ttl, memory) =>
        var _ := Set(key, bytes, ttl, ev.now, memory);
      case Get(key) =>
        data := Get(key, ev.now, true);
      case Remove(key) =>
        Remove(key);
      case Clear =>
        Clear();
    }
  }

  /** The survival guarantee on the real cache: run anything, set a key, run anything that spares it
      and sets fewer than maxSize other keys, and look it up before its expiry. */
  method SetThenGet(maxSize: nat, defaultTtl: int, before: seq<Event>, put: Event, evs: seq<Event>, now: int)
    returns (data: Option<Bytes>)
    requires put.op.Set? && put.op.memory
    requires |SetKeys(evs)| < maxSize
    requires ClockNonDecreasing(evs) && (evs != [] ==> evs[|evs| - 1].now <= now)
    requires forall ev | ev in evs ::
             ev.op != CacheSpec.Clear && (ev.op.Set? || ev.op.Remove? ==> ev.op.key != put.op.key)
    requires if put.op.ttl > 0 then now <= put.now + put.op.ttl else now <= put.now + defaultTtl
    ensures data == Some(put.op.data)
  {
    var cache := new Cache(maxSize, defaultTtl);
    PerformAll(cache, before + [put] + evs);
    SetSurvivesUntilExpiry(cache.Cfg(), before, put, evs, now);
    data := cache.Get(put.op.key, now, true);
  }

  /** Expiry on the real cache: run anything, set a key, run anything that does not set it again, and
      look it up twice, the first time later than the end of its ttl. */
  method SetThenExpire(maxSize: nat, defaultTtl: int, before: seq<Event>, put: Event, evs: seq<Event>,
                       now: int, again: int)
    returns (data: Option<Bytes>, later: Option<Bytes>)
    requires put.op.Set? && put.op.memory
    requires forall ev | ev in evs && ev.op.Set? :: ev.op.key != put.op.key
    requires if put.op.ttl > 0 then now > put.now + put.op.ttl else now > put.now + defaultTtl
    ensures data == None && later == None
  {
    var cache := new Cache(maxSize, defaultTtl);
    PerformAll(cache, before + [put] + evs);
    ghost var end := put.now + if put.op.ttl > 0 then put.op.ttl else defaultTtl;
    Expires(cache.Cfg(), before, put, evs, end, now);
    data := cache.Get(put.op.key, now, true);
    Indexed(cache.Contents(), put.op.key);
    later := cache.Get(put.op.key, again, true);
  }

  method PerformAll(cache: Cache, evs: seq<Event>)
    requires cache.Valid()
    modifies cache`repr, cache.entries, cache.repr
    ensures cache.Valid() && cache.Contents() == Run(old(cache.Contents()), cache.Cfg(), evs)
    ensures fresh(cache.repr - old(cache.repr))
  {
    for i := 0 to |evs|
      invariant cache.Valid() && cache.Contents() == Run(old(cache.Contents()), cache.Cfg(), evs[..i])
      invariant fresh(cache.repr - old(cache.repr))
    {
      assert evs[..i + 1][..i] == evs[..i];
      var _ := cache.Perform(evs[i]);
    }
    assert evs[..|evs|] == evs;
  }
}
