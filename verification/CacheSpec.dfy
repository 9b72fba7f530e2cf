/** The cache of src/lib/cache.c as a bounded, insertion-ordered map: a sequence of entries, oldest
    first. Operations, whole runs of operations with a clock, and what every run keeps. */
module CacheSpec {
  import opened Collections
  import opened LinkedLists

  type Bytes = seq<bv8>

  datatype Entry = Entry(key: string, data: Bytes, timestamp: int, expiry: int)

  // ---------- The operations ----------

  /** The index of the first entry with the key, |es| if there is none. */
  function IndexOf(es: seq<Entry>, key: string): (i: nat)
    ensures i <= |es|
    ensures i < |es| ==> es[i].key == key
    ensures forall j | 0 <= j < i :: es[j].key != key
  {
    if es == [] then 0
    else if es[0].key == key then 0
    else 1 + IndexOf(es[1..], key)
  }

  function RemoveKey(es: seq<Entry>, key: string): seq<Entry> {
    var i := IndexOf(es, key);
    if i < |es| then Without(es, i) else es
  }

  /** cache_set up to its allocations: the old entry of the key goes, then the oldest entry if the
      cache is still full. */
  function MakeRoom(es: seq<Entry>, maxSize: nat, key: string): seq<Entry> {
    var rest := RemoveKey(es, key);
    if |rest| >= maxSize && |rest| > 0 then RemoveKey(rest, rest[0].key) else rest
  }

  datatype Config = Config(maxSize: nat, defaultTtl: int)

  function Expiry(c: Config, ttl: int, now: int): int {
    now + (if ttl > 0 then ttl else c.defaultTtl)
  }

  function AfterSet(es: seq<Entry>, c: Config, key: string, data: Bytes, ttl: int, now: int, memory: bool): seq<Entry> {
    var room := MakeRoom(es, c.maxSize, key);
    if memory then room + [Entry(key, data, now, Expiry(c, ttl, now))] else room
  }

  /** What cache_get finds: nothing, an expired entry, or data. */
  datatype Lookup = Missing | Expired | Found(data: Bytes)

  function Find(es: seq<Entry>, key: string, now: int): Lookup {
    var i := IndexOf(es, key);
    if i == |es| then Missing
    else if now > es[i].expiry then Expired
    else Found(es[i].data)
  }

  function AfterGet(es: seq<Entry>, key: string, now: int): seq<Entry> {
    if Find(es, key, now).Expired? then RemoveKey(es, key) else es
  }

  // ---------- Runs ----------

  datatype Op =
    | Set(key: string, data: Bytes, ttl: int, memory: bool)
    | Get(key: string)
    | Remove(key: string)
    | Clear

  datatype Event = Event(op: Op, now: int)

  function Step(es: seq<Entry>, c: Config, ev: Event): seq<Entry> {
    match ev.op
    case Set(key, data, ttl, memory) => AfterSet(es, c, key, data, ttl, ev.now, memory)
    case Get(key) => AfterGet(es, key, ev.now)
    case Remove(key) => RemoveKey(es, key)
    case Clear => []
  }

  /** The entries after a run that starts from es. */
  function Run(es: seq<Entry>, c: Config, evs: seq<Event>): seq<Entry> {
    if evs == [] then es else Step(Run(es, c, evs[..|evs| - 1]), c, evs[|evs| - 1])
  }

  predicate ClockNonDecreasing(evs: seq<Event>) {
    forall i, j :: 0 <= i <= j < |evs| ==> evs[i].now <= evs[j].now
  }

  lemma {:induction false} RunAppend(es: seq<Entry>, c: Config, a: seq<Event>, b: seq<Event>)
    ensures Run(es, c, a + b) == Run(Run(es, c, a), c, b)
    decreases |b|
  {
    hide Step;
    if b == [] {
      assert a + b == a;
    } else {
      var b0 := b[..|b| - 1];
      RunAppend(es, c, a, b0);
      assert (a + b)[..|a + b| - 1] == a + b0 && (a + b)[|a + b| - 1] == b[|b| - 1];
    }
  }

  // ---------- Unique keys and bounded size ----------

  ghost predicate UniqueKeys(es: seq<Entry>) {
    forall i, j :: 0 <= i < j < |es| ==> es[i].key != es[j].key
  }

  ghost function Keys(es: seq<Entry>): set<string> {
    set i | 0 <= i < |es| :: es[i].key
  }

  /** With max_size 0 the cache still holds the entry set last. */
  function Capacity(c: Config): nat {
    if c.maxSize == 0 then 1 else c.maxSize
  }

  ghost predicate WellFormed(es: seq<Entry>, c: Config) {
    UniqueKeys(es) && |es| <= Capacity(c)
  }

  lemma {:induction false} Indexed(es: seq<Entry>, key: string)
    ensures IndexOf(es, key) < |es| <==> key in Keys(es)
  {
    if IndexOf(es, key) < |es| {
      assert es[IndexOf(es, key)].key in Keys(es);
    }
  }

  lemma {:induction false} IndexUnique(es: seq<Entry>, i: nat)
    requires UniqueKeys(es) && i < |es|
    ensures IndexOf(es, es[i].key) == i
  {
  }

  lemma RemoveKeyUnique(es: seq<Entry>, key: string)
    requires UniqueKeys(es)
    ensures UniqueKeys(RemoveKey(es, key))
    ensures Keys(RemoveKey(es, key)) == Keys(es) - {key}
    ensures |RemoveKey(es, key)| == if key in Keys(es) then |es| - 1 else |es|
  {
    var i := IndexOf(es, key);
    var r := RemoveKey(es, key);
    if i < |es| {
      assert forall j | 0 <= j < |r| :: r[j] == es[if j < i then j else j + 1];
      forall k | k in Keys(es) - {key}
        ensures k in Keys(r)
      {
        var j :| 0 <= j < |es| && es[j].key == k;
        assert r[if j < i then j else j - 1] == es[j];
      }
    }
  }

  lemma StepKeepsWellFormed(es: seq<Entry>, c: Config, ev: Event)
    requires WellFormed(es, c)
    ensures WellFormed(Step(es, c, ev), c)
  {
    match ev.op
    case Set(key, data, ttl, memory) =>
      var rest := RemoveKey(es, key);
      RemoveKeyUnique(es, key);
      if |rest| > 0 {
        RemoveKeyUnique(rest, rest[0].key);
        assert rest[0].key in Keys(rest);
      }
      var room := MakeRoom(es, c.maxSize, key);
      assert key !in Keys(room);
      assert forall i | 0 <= i < |room| :: room[i].key in Keys(room);
    case Get(key) =>
      RemoveKeyUnique(es, key);
    case Remove(key) =>
      RemoveKeyUnique(es, key);
    case Clear =>
  }

  /** In every reachable state keys are unique and the size is bounded. */
  lemma {:induction false} RunWellFormed(c: Config, evs: seq<Event>)
    ensures WellFormed(Run([], c, evs), c)
    decreases |evs|
  {
    if evs == [] {
    } else {
      RunWellFormed(c, evs[..|evs| - 1]);
      StepKeepsWellFormed(Run([], c, evs[..|evs| - 1]), c, evs[|evs| - 1]);
    }
  }

  /** Setting a key that is present moves it to the end and evicts nobody else. */
  lemma ResetEvictsNobody(es: seq<Entry>, c: Config, key: string, data: Bytes, ttl: int, now: int)
    requires WellFormed(es, c) && c.maxSize > 0 && key in Keys(es)
    ensures AfterSet(es, c, key, data, ttl, now, true)
            == RemoveKey(es, key) + [Entry(key, data, now, Expiry(c, ttl, now))]
    ensures Keys(AfterSet(es, c, key, data, ttl, now, true)) == Keys(es)
  {
    RemoveKeyUnique(es, key);
    var rest := RemoveKey(es, key);
    var e := Entry(key, data, now, Expiry(c, ttl, now));
    assert Keys(rest + [e]) == Keys(rest) + {key} by {
      assert (rest + [e])[|rest|] == e;
      assert forall i | 0 <= i < |rest| :: (rest + [e])[i] == rest[i];
    }
  }

  // ---------- Timestamps ----------

  ghost predicate Sorted(es: seq<Entry>) {
    forall i, j :: 0 <= i < j < |es| ==> es[i].timestamp <= es[j].timestamp
  }

  ghost predicate NoneLater(es: seq<Entry>, now: int) {
    forall i :: 0 <= i < |es| ==> es[i].timestamp <= now
  }

  lemma RemoveKeySorted(es: seq<Entry>, key: string, now: int)
    requires Sorted(es) && NoneLater(es, now)
    ensures Sorted(RemoveKey(es, key)) && NoneLater(RemoveKey(es, key), now)
  {
    var i := IndexOf(es, key);
    var r := RemoveKey(es, key);
    if i < |es| {
      assert forall j | 0 <= j < |r| :: r[j] == es[if j < i then j else j + 1];
    }
  }

  lemma StepKeepsSorted(es: seq<Entry>, c: Config, ev: Event)
    requires Sorted(es) && NoneLater(es, ev.now)
    ensures Sorted(Step(es, c, ev)) && NoneLater(Step(es, c, ev), ev.now)
  {
    match ev.op
    case Set(key, data, ttl, memory) =>
      var rest := RemoveKey(es, key);
      RemoveKeySorted(es, key, ev.now);
      if |rest| > 0 {
        RemoveKeySorted(rest, rest[0].key, ev.now);
      }
    case Get(key) =>
      RemoveKeySorted(es, key, ev.now);
    case Remove(key) =>
      RemoveKeySorted(es, key, ev.now);
    case Clear =>
  }

  /** With a clock that never goes back, timestamps are sorted along the list. */
  lemma {:induction false} RunSorted(c: Config, evs: seq<Event>, now: int)
    requires ClockNonDecreasing(evs) && (evs != [] ==> evs[|evs| - 1].now <= now)
    ensures Sorted(Run([], c, evs)) && NoneLater(Run([], c, evs), now)
    decreases |evs|
  {
    if evs == [] {
    } else {
      var ev := evs[|evs| - 1];
      RunSorted(c, evs[..|evs| - 1], ev.now);
      StepKeepsSorted(Run([], c, evs[..|evs| - 1]), c, ev);
    }
  }

  /** So the entry that cache_set evicts for a new key has the least timestamp of all. */
  lemma {:induction false} EvictsTheOldest(c: Config, evs: seq<Event>, key: string)
    requires ClockNonDecreasing(evs)
    ensures var es := Run([], c, evs);
            key !in Keys(es) && |es| >= c.maxSize && |es| > 0 ==>
              MakeRoom(es, c.maxSize, key) == es[1..] && forall i | 0 <= i < |es| :: es[0].timestamp <= es[i].timestamp
  {
    var es := Run([], c, evs);
    RunSorted(c, evs, if evs == [] then 0 else evs[|evs| - 1].now);
    if key !in Keys(es) && |es| > 0 {
      Indexed(es, key);
      assert IndexOf(es, es[0].key) == 0;
    }
  }

  // ---------- Survival ----------

  /** The keys that cache_set is called for during a run. */
  ghost function SetKeys(evs: seq<Event>): (s: set<string>)
    ensures forall i | 0 <= i < |evs| && evs[i].op.Set? :: evs[i].op.key in s
  {
    set i | 0 <= i < |evs| && evs[i].op.Set? :: evs[i].op.key
  }

  /** An event that does not set, remove or expire the entry e, and does not clear the cache. */
  predicate Spares(ev: Event, e: Entry) {
    match ev.op
    case Set(key, _, _, _) => key != e.key
    case Get(key) => key == e.key ==> ev.now <= e.expiry
    case Remove(key) => key != e.key
    case Clear => false
  }

  /** e is in the cache, and everything behind it has a key from s. */
  ghost predicate Holds(es: seq<Entry>, front: seq<Entry>, e: Entry, back: seq<Entry>, s: set<string>) {
    es == front + [e] + back && UniqueKeys(es) && Keys(back) <= s
  }

  lemma {:induction false} UniqueKeysCount(es: seq<Entry>)
    requires UniqueKeys(es)
    ensures |Keys(es)| == |es|
  {
    if es == [] {
      assert Keys(es) == {};
    } else {
      var init, last := es[..|es| - 1], es[|es| - 1];
      UniqueKeysCount(init);
      assert Keys(es) == Keys(init) + {last.key} by {
        assert forall i | 0 <= i < |init| :: es[i] == init[i];
      }
      assert last.key !in Keys(init);
    }
  }

  lemma SubsetSize<T>(a: set<T>, b: set<T>)
    requires a <= b
    ensures |a| <= |b|
  {
    assert |b| == |a| + |b - a| by {
      assert b == a + (b - a);
    }
  }

  lemma SplitUnique(front: seq<Entry>, e: Entry, back: seq<Entry>)
    requires UniqueKeys(front + [e] + back)
    ensures UniqueKeys(front) && UniqueKeys(back) && Keys(front) !! Keys(back)
    ensures e.key !in Keys(front) && e.key !in Keys(back)
  {
    var es := front + [e] + back;
    assert es[|front|] == e;
    assert forall i | 0 <= i < |front| :: es[i] == front[i];
    assert forall i | 0 <= i < |back| :: es[|front| + 1 + i] == back[i];
  }

  lemma Assoc(a: seq<Entry>, b: seq<Entry>, c: seq<Entry>)
    ensures a + b + c == a + (b + c)
  {
  }

  lemma NotRemoved(es: seq<Entry>, key: string)
    ensures key !in Keys(es) ==> RemoveKey(es, key) == es
  {
    Indexed(es, key);
  }

  lemma RemoveFromFront(front: seq<Entry>, rest: seq<Entry>, key: string)
    requires UniqueKeys(front + rest) && key in Keys(front)
    ensures RemoveKey(front + rest, key) == RemoveKey(front, key) + rest
  {
    Indexed(front, key);
    var i := IndexOf(front, key);
    assert (front + rest)[i] == front[i];
    IndexUnique(front + rest, i);
    assert Without(front + rest, i) == Without(front, i) + rest;
  }

  lemma WithoutBehind(front: seq<Entry>, back: seq<Entry>, i: nat)
    requires i < |back|
    ensures Without(front + back, |front| + i) == front + Without(back, i)
    ensures (front + back)[|front| + i] == back[i]
  {
  }

  lemma RemoveFromBack(front: seq<Entry>, back: seq<Entry>, key: string)
    requires UniqueKeys(front + back) && key in Keys(back)
    ensures RemoveKey(front + back, key) == front + RemoveKey(back, key)
  {
    Indexed(back, key);
    hide Keys, UniqueKeys, Without;
    var i := IndexOf(back, key);
    WithoutBehind(front, back, i);
    IndexUnique(front + back, |front| + i);
  }

  /** Removing another key leaves e where it is relative to what is behind it. */
  lemma RemoveAround(front: seq<Entry>, e: Entry, back: seq<Entry>, key: string)
    requires UniqueKeys(front + [e] + back) && key != e.key
    ensures RemoveKey(front + [e] + back, key) == RemoveKey(front, key) + [e] + RemoveKey(back, key)
    ensures Keys(RemoveKey(back, key)) == Keys(back) - {key}
  {
    var es := front + [e] + back;
    SplitUnique(front, e, back);
    RemoveKeyUnique(back, key);
    NotRemoved(front, key);
    NotRemoved(back, key);
    NotRemoved(es, key);
    KeysOfSplit(front, e, back);
    hide RemoveKey, Keys, UniqueKeys;
    if key in Keys(front) {
      Assoc(front, [e], back);
      RemoveFromFront(front, [e] + back, key);
      Assoc(RemoveKey(front, key), [e], back);
    } else if key in Keys(back) {
      RemoveFromBack(front + [e], back, key);
    }
  }

  lemma KeysOfSplit(front: seq<Entry>, e: Entry, back: seq<Entry>)
    ensures Keys(front + [e] + back) == Keys(front) + {e.key} + Keys(back)
  {
    var es := front + [e] + back;
    assert es[|front|] == e;
    assert forall i | 0 <= i < |front| :: es[i] == front[i];
    assert forall i | 0 <= i < |back| :: es[|front| + 1 + i] == back[i];
  }

  lemma EvictFront(front: seq<Entry>, e: Entry, back: seq<Entry>)
    requires UniqueKeys(front + [e] + back) && front != []
    ensures RemoveKey(front + [e] + back, (front + [e] + back)[0].key) == front[1..] + [e] + back
  {
    IndexUnique(front + [e] + back, 0);
  }

  /** While fewer than max_size other keys have been set, e is not the one to be evicted. */
  lemma MakeRoomSpares(front: seq<Entry>, e: Entry, back: seq<Entry>, c: Config, key: string, s: set<string>)
    returns (front': seq<Entry>, back': seq<Entry>)
    requires Holds(front + [e] + back, front, e, back, s) && key != e.key
    requires |s + {key}| < c.maxSize
    ensures Holds(MakeRoom(front + [e] + back, c.maxSize, key), front', e, back', s)
    ensures key !in Keys(MakeRoom(front + [e] + back, c.maxSize, key))
  {
    var es := front + [e] + back;
    RemoveAround(front, e, back, key);
    RemoveKeyUnique(es, key);
    front', back' := RemoveKey(front, key), RemoveKey(back, key);
    var rest := RemoveKey(es, key);
    SplitUnique(front', e, back');
    UniqueKeysCount(back');
    SubsetSize(Keys(back') + {key}, s + {key});
    assert |Keys(back') + {key}| == |back'| + 1;
    if |rest| >= c.maxSize {
      RemoveKeyUnique(rest, rest[0].key);
      EvictFront(front', e, back');
      front' := front'[1..];
    }
  }

  lemma StepSpares(front: seq<Entry>, e: Entry, back: seq<Entry>, c: Config, ev: Event, s: set<string>)
    returns (front': seq<Entry>, back': seq<Entry>)
    requires Holds(front + [e] + back, front, e, back, s) && Spares(ev, e)
    requires ev.op.Set? ==> ev.op.key in s
    requires |s| < c.maxSize
    ensures Holds(Step(front + [e] + back, c, ev), front', e, back', s)
  {
    var es := front + [e] + back;
    match ev.op
    case Set(key, data, ttl, memory) =>
      assert s + {key} == s;
      front', back' := MakeRoomSpares(front, e, back, c, key, s);
      if memory {
        var n := Entry(key, data, ev.now, Expiry(c, ttl, ev.now));
        var room := MakeRoom(es, c.maxSize, key);
        AppendUnique(room, n);
        KeysOfSplit(back', n, []);
        assert back' + [n] + [] == back' + [n];
        assert room + [n] == front' + [e] + (back' + [n]);
        back' := back' + [n];
      }
    case Get(key) =>
      IndexUnique(es, |front|);
      front', back' := front, back;
      if Find(es, key, ev.now).Expired? {
        RemoveAround(front, e, back, key);
        RemoveKeyUnique(es, key);
        front', back' := RemoveKey(front, key), RemoveKey(back, key);
      }
    case Remove(key) =>
      RemoveAround(front, e, back, key);
      RemoveKeyUnique(es, key);
      front', back' := RemoveKey(front, key), RemoveKey(back, key);
  }

  lemma AppendUnique(es: seq<Entry>, n: Entry)
    requires UniqueKeys(es) && n.key !in Keys(es)
    ensures UniqueKeys(es + [n])
  {
    assert forall i | 0 <= i < |es| :: es[i].key in Keys(es);
  }

  lemma {:induction false} RunSpares(front: seq<Entry>, e: Entry, back: seq<Entry>,
                                  c: Config, evs: seq<Event>, s: set<string>)
    returns (front': seq<Entry>, back': seq<Entry>)
    requires Holds(front + [e] + back, front, e, back, s)
    requires forall ev | ev in evs :: Spares(ev, e)
    requires SetKeys(evs) <= s && |s| < c.maxSize
    ensures Holds(Run(front + [e] + back, c, evs), front', e, back', s)
    decreases |evs|
  {
    if evs == [] {
      front', back' := front, back;
    } else {
      var evs0, ev := evs[..|evs| - 1], evs[|evs| - 1];
      SetKeysPrefix(evs);
      front', back' := RunSpares(front, e, back, c, evs0, s);
      front', back' := StepSpares(front', e, back', c, ev, s);
    }
  }

  lemma SetKeysPrefix(evs: seq<Event>)
    requires evs != []
    ensures SetKeys(evs) == SetKeys(evs[..|evs| - 1]) + if evs[|evs| - 1].op.Set? then {evs[|evs| - 1].op.key} else {}
  {
    var evs0 := evs[..|evs| - 1];
    assert forall i | 0 <= i < |evs0| :: evs[i] == evs0[i];
  }

  /** After any run, a set that succeeds is not forgotten by a further run in which the key is
      neither set, removed, looked up after its expiry nor cleared away, and fewer than max_size
      distinct other keys are set: the next lookup before the expiry finds exactly the data set. */
  lemma {:induction false} SetSurvives(c: Config, before: seq<Event>, put: Event, evs: seq<Event>, now: int)
    requires put.op.Set? && put.op.memory
    requires |SetKeys(evs)| < c.maxSize
    requires forall ev | ev in evs ::
             Spares(ev, Entry(put.op.key, put.op.data, put.now, Expiry(c, put.op.ttl, put.now)))
    requires now <= Expiry(c, put.op.ttl, put.now)
    ensures Find(Run([], c, before + [put] + evs), put.op.key, now) == Found(put.op.data)
  {
    var e := Entry(put.op.key, put.op.data, put.now, Expiry(c, put.op.ttl, put.now));
    var es := Run([], c, before);
    RunWellFormed(c, before);
    RunAppend([], c, before + [put], evs);
    var room := SetAppends(es, c, put);
    assert Run([], c, before + [put]) == Step(es, c, put) by {
      assert (before + [put])[..|before|] == before;
    }
    assert room + [e] + [] == room + [e];
    var front, back := RunSpares(room, e, [], c, evs, SetKeys(evs));
    var final := Run([], c, before + [put] + evs);
    assert final[|front|] == e;
    IndexUnique(final, |front|);
  }

  lemma SetAppends(es: seq<Entry>, c: Config, put: Event) returns (room: seq<Entry>)
    requires WellFormed(es, c) && put.op.Set? && put.op.memory
    ensures room == MakeRoom(es, c.maxSize, put.op.key)
    ensures Step(es, c, put) == room + [Entry(put.op.key, put.op.data, put.now, Expiry(c, put.op.ttl, put.now))]
    ensures UniqueKeys(Step(es, c, put))
  {
    room := MakeRoom(es, c.maxSize, put.op.key);
    StepKeepsWellFormed(es, c, put);
  }

  /** The same over a clock that never goes back: nothing then has to be said about the lookups
      in between. */
  lemma {:induction false} SetSurvivesUntilExpiry(c: Config, before: seq<Event>, put: Event, evs: seq<Event>, now: int)
    requires put.op.Set? && put.op.memory
    requires |SetKeys(evs)| < c.maxSize
    requires ClockNonDecreasing(evs) && (evs != [] ==> evs[|evs| - 1].now <= now)
    requires forall ev | ev in evs :: ev.op != Clear && (ev.op.Set? || ev.op.Remove? ==> ev.op.key != put.op.key)
    requires now <= Expiry(c, put.op.ttl, put.now)
    ensures Find(Run([], c, before + [put] + evs), put.op.key, now) == Found(put.op.data)
  {
    var e := Entry(put.op.key, put.op.data, put.now, Expiry(c, put.op.ttl, put.now));
    forall ev | ev in evs
      ensures Spares(ev, e)
    {
      var i :| 0 <= i < |evs| && evs[i] == ev;
      assert evs[i].now <= evs[|evs| - 1].now;
    }
    SetSurvives(c, before, put, evs, now);
  }

  // ---------- Expiry ----------

  /** Every entry with the key expires at x. */
  ghost predicate ExpireAt(es: seq<Entry>, key: string, x: int) {
    forall i | 0 <= i < |es| && es[i].key == key :: es[i].expiry == x
  }

  lemma RemoveKeyExpiry(es: seq<Entry>, other: string, key: string, x: int)
    requires ExpireAt(es, key, x)
    ensures ExpireAt(RemoveKey(es, other), key, x)
  {
    var i := IndexOf(es, other);
    var r := RemoveKey(es, other);
    if i < |es| {
      assert forall j | 0 <= j < |r| :: r[j] == es[if j < i then j else j + 1];
    }
  }

  lemma StepKeepsExpiry(es: seq<Entry>, c: Config, ev: Event, key: string, x: int)
    requires ExpireAt(es, key, x) && (ev.op.Set? ==> ev.op.key != key)
    ensures ExpireAt(Step(es, c, ev), key, x)
  {
    match ev.op
    case Set(other, data, ttl, memory) =>
      RemoveKeyExpiry(es, other, key, x);
      var rest := RemoveKey(es, other);
      if |rest| > 0 {
        RemoveKeyExpiry(rest, rest[0].key, key, x);
      }
    case Get(other) =>
      RemoveKeyExpiry(es, other, key, x);
    case Remove(other) =>
      RemoveKeyExpiry(es, other, key, x);
    case Clear =>
  }

  lemma {:induction false} RunKeepsExpiry(es: seq<Entry>, c: Config, evs: seq<Event>, key: string, x: int)
    requires ExpireAt(es, key, x)
    requires forall ev | ev in evs && ev.op.Set? :: ev.op.key != key
    ensures ExpireAt(Run(es, c, evs), key, x)
    decreases |evs|
  {
    hide ExpireAt, Step;
    if evs != [] {
      RunKeepsExpiry(es, c, evs[..|evs| - 1], key, x);
      StepKeepsExpiry(Run(es, c, evs[..|evs| - 1]), c, evs[|evs| - 1], key, x);
    }
  }

  /** What a successful set stores at the end: the data, the time, and the end of the ttl, which is
      the default one unless a positive one is given. */
  lemma SetStores(es: seq<Entry>, c: Config, put: Event)
    requires put.op.Set? && put.op.memory
    ensures var after := Step(es, c, put);
            && after != []
            && var e := after[|after| - 1];
               && e.key == put.op.key && e.data == put.op.data && e.timestamp == put.now
               && (put.op.ttl > 0 ==> e.expiry == put.now + put.op.ttl)
               && (put.op.ttl <= 0 ==> e.expiry == put.now + c.defaultTtl)
  {
  }

  /** The last moment at which a set can be found. */
  predicate LastMoment(c: Config, put: Event, end: int)
    requires put.op.Set?
  {
    && (put.op.ttl > 0 ==> end == put.now + put.op.ttl)
    && (put.op.ttl <= 0 ==> end == put.now + c.defaultTtl)
  }

  lemma {:induction false} KeyAfterSet(c: Config, before: seq<Event>, put: Event, end: int)
    requires put.op.Set? && put.op.memory && LastMoment(c, put, end)
    ensures ExpireAt(Run([], c, before + [put]), put.op.key, end)
  {
    var es := Run([], c, before);
    RunWellFormed(c, before);
    var room := SetAppends(es, c, put);
    assert (before + [put])[..|before|] == before;
    var after := Run([], c, before + [put]);
    assert after == Step(es, c, put);
    assert forall i | 0 <= i < |room| :: after[i].key != after[|room|].key;
  }

  /** After any run, a set that succeeds, and any events that do not set the key again, a lookup later
      than the end of the ttl finds nothing and leaves nothing behind. */
  lemma {:induction false} Expires(c: Config, before: seq<Event>, put: Event, evs: seq<Event>, end: int, now: int)
    requires put.op.Set? && put.op.memory && LastMoment(c, put, end) && now > end
    requires forall ev | ev in evs && ev.op.Set? :: ev.op.key != put.op.key
    ensures var es := Run([], c, before + [put] + evs);
            && !Find(es, put.op.key, now).Found?
            && put.op.key !in Keys(AfterGet(es, put.op.key, now))
  {
    var key, es := put.op.key, Run([], c, before + [put] + evs);
    KeyAfterSet(c, before, put, end);
    RunAppend([], c, before + [put], evs);
    RunKeepsExpiry(Run([], c, before + [put]), c, evs, key, end);
    RunWellFormed(c, before + [put] + evs);
    RemoveKeyUnique(es, key);
    Indexed(es, key);
  }

  /** With a clock that never goes back and fewer than max_size other keys set, a lookup finds the
      data exactly up to the end of the ttl. */
  lemma {:induction false} FoundExactlyUntilTheEnd(
    c: Config, before: seq<Event>, put: Event, evs: seq<Event>, end: int, now: int)
    requires put.op.Set? && put.op.memory && LastMoment(c, put, end)
    requires |SetKeys(evs)| < c.maxSize
    requires ClockNonDecreasing(evs) && (evs != [] ==> evs[|evs| - 1].now <= now)
    requires forall ev | ev in evs :: ev.op != Clear && (ev.op.Set? || ev.op.Remove? ==> ev.op.key != put.op.key)
    ensures Find(Run([], c, before + [put] + evs), put.op.key, now) == Found(put.op.data) <==> now <= end
    ensures Find(Run([], c, before + [put] + evs), put.op.key, now).Found? <==> now <= end
  {
    hide Run, Find, SetKeys, ClockNonDecreasing;
    if now <= end {
      SetSurvivesUntilExpiry(c, before, put, evs, now);
    } else {
      Expires(c, before, put, evs, end, now);
    }
  }

  /** A set that fails for want of memory forgets the key all the same. */
  lemma {:induction false} FailedSetForgets(c: Config, before: seq<Event>, put: Event, now: int)
    requires put.op.Set? && !put.op.memory
    ensures put.op.key !in Keys(Run([], c, before + [put]))
    ensures Find(Run([], c, before + [put]), put.op.key, now) == Missing
  {
    var key, es := put.op.key, Run([], c, before);
    RunWellFormed(c, before);
    assert (before + [put])[..|before|] == before;
    RemoveKeyUnique(es, key);
    var rest := RemoveKey(es, key);
    if |rest| > 0 {
      RemoveKeyUnique(rest, rest[0].key);
    }
    Indexed(Run([], c, before + [put]), key);
  }

  // ---------- First in, first out, exactly ----------

  /** A successful set of another key. */
  predicate Fills(ev: Event, key: string) {
    ev.op.Set? && ev.op.memory && ev.op.key != key
  }

  lemma FillRoom(front: seq<Entry>, e: Entry, back: seq<Entry>, c: Config, key: string)
    returns (front': seq<Entry>, back': seq<Entry>)
    requires UniqueKeys(front + [e] + back) && key != e.key
    requires e.key in Keys(MakeRoom(front + [e] + back, c.maxSize, key))
    ensures MakeRoom(front + [e] + back, c.maxSize, key) == front' + [e] + back'
    ensures Keys(back') == Keys(back) - {key}
  {
    var es := front + [e] + back;
    RemoveAround(front, e, back, key);
    RemoveKeyUnique(es, key);
    front', back' := RemoveKey(front, key), RemoveKey(back, key);
    var rest := RemoveKey(es, key);
    if |rest| >= c.maxSize {
      RemoveKeyUnique(rest, rest[0].key);
      assert front' != [];
      EvictFront(front', e, back');
      front' := front'[1..];
    }
  }

  /** Under successful sets alone, whatever is behind e are exactly the keys set since. */
  lemma FillStep(front: seq<Entry>, e: Entry, back: seq<Entry>, c: Config, ev: Event)
    returns (front': seq<Entry>, back': seq<Entry>)
    requires UniqueKeys(front + [e] + back) && Fills(ev, e.key)
    requires e.key in Keys(Step(front + [e] + back, c, ev))
    ensures Step(front + [e] + back, c, ev) == front' + [e] + back'
    ensures Keys(back') == Keys(back) + {ev.op.key}
  {
    var es := front + [e] + back;
    var key := ev.op.key;
    var n := Entry(key, ev.op.data, ev.now, Expiry(c, ev.op.ttl, ev.now));
    var room := MakeRoom(es, c.maxSize, key);
    hide MakeRoom;
    KeysOfSplit(room, n, []);
    assert room + [n] + [] == room + [n];
    front', back' := FillRoom(front, e, back, c, key);
    KeysOfSplit(back', n, []);
    assert back' + [n] + [] == back' + [n];
    assert room + [n] == front' + [e] + (back' + [n]);
    back' := back' + [n];
  }

  lemma FillsKeepAbsent(es: seq<Entry>, c: Config, ev: Event, key: string)
    requires UniqueKeys(es) && Fills(ev, key) && key !in Keys(es)
    ensures key !in Keys(Step(es, c, ev))
  {
    RemoveKeyUnique(es, ev.op.key);
    var rest := RemoveKey(es, ev.op.key);
    if |rest| > 0 {
      RemoveKeyUnique(rest, rest[0].key);
    }
    var room := MakeRoom(es, c.maxSize, ev.op.key);
    var n := Entry(ev.op.key, ev.op.data, ev.now, Expiry(c, ev.op.ttl, ev.now));
    KeysOfSplit(room, n, []);
    assert room + [n] + [] == room + [n];
  }

  lemma {:induction false} FillRun(front: seq<Entry>, e: Entry, c: Config, evs: seq<Event>)
    returns (front': seq<Entry>, back': seq<Entry>)
    requires WellFormed(front + [e], c)
    requires forall ev | ev in evs :: Fills(ev, e.key)
    ensures WellFormed(Run(front + [e], c, evs), c)
    ensures e.key in Keys(Run(front + [e], c, evs)) ==>
              Run(front + [e], c, evs) == front' + [e] + back' && Keys(back') == SetKeys(evs)
    decreases |evs|
  {
    if evs == [] {
      front', back' := front, [];
      assert SetKeys(evs) == {} && Keys([]) == {};
    } else {
      var evs0, ev := evs[..|evs| - 1], evs[|evs| - 1];
      front', back' := FillRun(front, e, c, evs0);
      var es := Run(front + [e], c, evs0);
      StepKeepsWellFormed(es, c, ev);
      SetKeysPrefix(evs);
      if e.key in Keys(es) {
        if e.key in Keys(Step(es, c, ev)) {
          front', back' := FillStep(front', e, back', c, ev);
        }
      } else {
        FillsKeepAbsent(es, c, ev, e.key);
      }
    }
  }

  lemma {:induction false} PresentMeansFew(c: Config, room: seq<Entry>, e: Entry, evs: seq<Event>)
    requires c.maxSize > 0 && WellFormed(room + [e], c)
    requires forall ev | ev in evs :: Fills(ev, e.key)
    ensures e.key in Keys(Run(room + [e], c, evs)) ==> |SetKeys(evs)| < c.maxSize
  {
    var front, back := FillRun(room, e, c, evs);
    if e.key in Keys(Run(room + [e], c, evs)) {
      SplitUnique(front, e, back);
      UniqueKeysCount(back);
    }
  }

  /** Under successful sets alone the bound is exact: a key is still cached if and only if fewer
      than max_size distinct other keys have been set since. */
  lemma {:induction false} EvictionIsExact(c: Config, before: seq<Event>, put: Event, evs: seq<Event>)
    requires c.maxSize > 0 && put.op.Set? && put.op.memory
    requires forall ev | ev in evs :: Fills(ev, put.op.key)
    ensures put.op.key in Keys(Run([], c, before + [put] + evs)) <==> |SetKeys(evs)| < c.maxSize
  {
    var key := put.op.key;
    var e := Entry(key, put.op.data, put.now, Expiry(c, put.op.ttl, put.now));
    var es := Run([], c, before);
    RunWellFormed(c, before);
    RunAppend([], c, before + [put], evs);
    var room := SetAppends(es, c, put);
    StepKeepsWellFormed(es, c, put);
    assert Run([], c, before + [put]) == Step(es, c, put) by {
      assert (before + [put])[..|before|] == before;
    }
    var final := Run([], c, before + [put] + evs);
    if |SetKeys(evs)| < c.maxSize {
      SetSurvives(c, before, put, evs, e.expiry);
      Indexed(final, key);
    }
    PresentMeansFew(c, room, e, evs);
  }
}
