/** The LLM response cache against its history of puts. The clock is strictly
    increasing from one operation to the next; times are seconds. */
module LlmCache {
  import opened Wrappers

  const MAX_ENTRIES: nat := 100
  const TTL_SECONDS: real := 86400.0

  datatype Entry = Entry(response: string, ts: real, model: string, hits: nat, len: nat)
  type Cache = map<string, Entry>

  /** One completed put. */
  datatype Stored = Stored(key: string, response: string, at: real)

  // ---------- the history ----------

  predicate Chronological(h: seq<Stored>) {
    forall i, j :: 0 <= i < j < |h| ==> h[i].at < h[j].at
  }

  type Puts = map<string, Stored>

  /** The last put of every key. */
  function LastPuts(h: seq<Stored>): (m: Puts)
  {
    if h == [] then map[] else
      var p := h[|h| - 1];
      LastPuts(h[..|h| - 1])[p.key := p]
  }

  /** The keys whose last put came after that of key. */
  function Newer(m: Puts, key: string): (ks: set<string>)
    requires key in m
    ensures forall k :: k in ks <==> k in m && m[k].at > m[key].at
  {
    set k | k in m && m[k].at > m[key].at
  }

  /** The specification: what a get at time now has to return. */
  function Expected(m: Puts, key: string, now: real): Option<string> {
    if key in m && now - m[key].at <= TTL_SECONDS && |Newer(m, key)| < MAX_ENTRIES
    then Some(m[key].response) else None
  }

  predicate Dated(m: Puts, clock: real) {
    && (forall k :: k in m ==> m[k].key == k && m[k].at <= clock)
    && (forall k, k' :: k in m && k' in m && k != k' ==> m[k].at != m[k'].at)
  }

  lemma {:induction false} HistoryIsDated(h: seq<Stored>, clock: real)
    requires Chronological(h) && (h == [] || h[|h| - 1].at <= clock)
    ensures Dated(LastPuts(h), clock)
    ensures forall k, p :: k in LastPuts(h) && h != [] && p == h[|h| - 1] && k != p.key ==> LastPuts(h)[k].at < p.at
  {
    if |h| > 1 { HistoryIsDated(h[..|h| - 1], h[|h| - 2].at); }
  }

  lemma NewerAfterPut(m: Puts, clock: real, p: Stored, key: string)
    requires Dated(m, clock) && clock < p.at && key in m && key != p.key
    ensures Newer(m[p.key := p], key) == Newer(m, key) + {p.key}
  {
  }

  function Keys(puts: seq<Stored>): (ks: set<string>)
    ensures forall i :: 0 <= i < |puts| ==> puts[i].key in ks
  {
    if puts == [] then {} else Keys(puts[..|puts| - 1]) + {puts[|puts| - 1].key}
  }

  /** The keys of the puts behind the i-th one. */
  function KeysAfter(h: seq<Stored>, i: nat): (ks: set<string>)
    requires i < |h|
  {
    Keys(h[i + 1..])
  }

  lemma KeysAfterAppend(h: seq<Stored>, p: Stored, i: nat)
    requires i < |h|
    ensures KeysAfter(h + [p], i) == KeysAfter(h, i) + {p.key}
  {
    assert (h + [p])[i + 1..] == h[i + 1..] + [p];
    assert (h[i + 1..] + [p])[..|h| - i - 1] == h[i + 1..];
  }

  /** In terms of the puts themselves: the last put of a key is a put of it that no put of
      it follows, and the newer keys are the keys of the puts that follow it, all others. */
  lemma {:induction false} LastPutsMeaning(h: seq<Stored>, i: nat)
    requires Chronological(h) && i < |h|
    ensures var key, m := h[i].key, LastPuts(h);
      && key in m
      && (m[key] == h[i] <==> key !in KeysAfter(h, i))
      && (m[key] == h[i] ==> Newer(m, key) == KeysAfter(h, i))
  {
    hide KeysAfter;
    var front, p := h[..|h| - 1], h[|h| - 1];
    if i == |front| {
      NothingAfterLast(h);
      HistoryIsDated(h, p.at);
      assert Newer(LastPuts(h), h[i].key) == {};
    } else {
      ChronologicalFront(h, i);
      LastPutsMeaning(front, i);
      assert h == front + [p];
      KeysAfterAppend(front, p, i);
      MeaningKept(front, i, p);
    }
  }

  lemma NothingAfterLast(h: seq<Stored>)
    requires h != []
    ensures KeysAfter(h, |h| - 1) == {}
  {
  }

  lemma MeaningKept(h: seq<Stored>, i: nat, p: Stored)
    requires i < |h| && h[i] != p && h[|h| - 1].at < p.at && Dated(LastPuts(h), h[|h| - 1].at)
    requires h[i].key in LastPuts(h)
    ensures h[i].key != p.key && LastPuts(h)[h[i].key] == h[i] ==>
      Newer(LastPuts(h + [p]), h[i].key) == Newer(LastPuts(h), h[i].key) + {p.key}
    ensures LastPuts(h + [p])[h[i].key] == if h[i].key == p.key then p else LastPuts(h)[h[i].key]
  {
    assert (h + [p])[..|h|] == h;
    if h[i].key != p.key {
      NewerAfterPut(LastPuts(h), h[|h| - 1].at, p, h[i].key);
    }
  }

  lemma ChronologicalFront(h: seq<Stored>, i: nat)
    requires Chronological(h) && i < |h| - 1
    ensures Chronological(h[..|h| - 1]) && h[i] != h[|h| - 1]
    ensures h[|h| - 2].at < h[|h| - 1].at && Dated(LastPuts(h[..|h| - 1]), h[|h| - 2].at)
  {
    HistoryIsDated(h[..|h| - 1], h[|h| - 2].at);
  }

  /** What a get has to return, in terms of the puts alone: the response of the last put of
      the key, if that is not more than a day old and fewer than a hundred different keys
      were put after it. */
  lemma ExpectedExactly(h: seq<Stored>, key: string, now: real)
    requires Chronological(h)
    ensures (forall i :: 0 <= i < |h| ==> h[i].key != key) ==> Expected(LastPuts(h), key, now) == None
    ensures forall i :: 0 <= i < |h| && h[i].key == key && (forall j :: i < j < |h| ==> h[j].key != key) ==>
      Expected(LastPuts(h), key, now) ==
        if now - h[i].at <= 86400.0 && |set j | i < j < |h| :: h[j].key| < 100 then Some(h[i].response) else None
  {
    hide LastPuts;
    forall i | 0 <= i < |h| && h[i].key == key && (forall j :: i < j < |h| ==> h[j].key != key)
      ensures Expected(LastPuts(h), key, now) ==
        if now - h[i].at <= 86400.0 && |set j | i < j < |h| :: h[j].key| < 100 then Some(h[i].response) else None
    {
      LastPutsMeaning(h, i);
      KeysAfterExactly(h, i);
    }
    if forall i :: 0 <= i < |h| ==> h[i].key != key { NeverPut(h, key); }
  }

  lemma KeysAfterExactly(h: seq<Stored>, i: nat)
    requires i < |h|
    ensures KeysAfter(h, i) == set j | i < j < |h| :: h[j].key
  {
    KeysExactly(h[i + 1..]);
    assert forall j :: i < j < |h| ==> h[j] == h[i + 1..][j - i - 1];
    forall k | k in KeysAfter(h, i)
      ensures k in set j | i < j < |h| :: h[j].key
    {
      var j :| 0 <= j < |h[i + 1..]| && h[i + 1..][j].key == k;
      assert h[i + 1 + j].key == k;
    }
  }

  lemma {:induction false} KeysExactly(puts: seq<Stored>)
    ensures Keys(puts) == set j | 0 <= j < |puts| :: puts[j].key
  {
    if puts != [] {
      var front := puts[..|puts| - 1];
      KeysExactly(front);
    }
  }

  lemma {:induction false} NeverPut(h: seq<Stored>, key: string)
    requires forall i :: 0 <= i < |h| ==> h[i].key != key
    ensures key !in LastPuts(h)
  {
    if h != [] { NeverPut(h[..|h| - 1], key); }
  }

  // ---------- a cache agrees with a history ----------

  predicate Dead(p: Stored, clock: real) {
    clock - p.at >= TTL_SECONDS
  }

  /** What cached entries say is what was put last. */
  predicate Faithful(m: Puts, c: Cache) {
    forall k :: k in c ==> k in m && c[k].response == m[k].response && c[k].ts == m[k].at
  }

  /** Keys put after a cached one are cached too, unless their time is over. */
  predicate UpwardClosed(m: Puts, c: Cache, clock: real) {
    forall k, k' :: k in c && k in m && k' in m && m[k'].at > m[k].at ==> k' in c || Dead(m[k'], clock)
  }

  /** A key that is gone is over its time or has 100 other keys behind it. */
  predicate GoneForAReason(m: Puts, c: Cache, clock: real) {
    forall k :: k in m && k !in c ==> Dead(m[k], clock) || |Newer(m, k)| >= MAX_ENTRIES
  }

  predicate Agrees(m: Puts, c: Cache, clock: real) {
    && Dated(m, clock)
    && |c| <= MAX_ENTRIES
    && Faithful(m, c)
    && UpwardClosed(m, c, clock)
    && GoneForAReason(m, c, clock)
  }

  function Lookup(c: Cache, key: string, now: real): Option<string> {
    if key in c && !(now - c[key].ts > TTL_SECONDS) then Some(c[key].response) else None
  }

  lemma SubsetSize(a: set<string>, b: set<string>)
    requires a <= b
    ensures |a| <= |b|
  {
    assert b == a + (b - a);
  }

  /** A get answers exactly as the history says: the last response put for the key, if
      that put has not expired and fewer than 100 other keys were put since. */
  lemma LookupMeetsExpectation(m: Puts, c: Cache, clock: real, key: string, now: real)
    requires Agrees(m, c, clock) && clock < now
    ensures Lookup(c, key, now) == Expected(m, key, now)
  {
    if key in c && now - c[key].ts <= TTL_SECONDS {
      assert forall k :: k in Newer(m, key) ==> k in c;
      SubsetSize(Newer(m, key) + {key}, c.Keys);
    }
  }

  /** Time passing, and dropping entries that are over, keep the agreement. */
  lemma DropDead(m: Puts, c: Cache, clock: real, c': Cache, now: real)
    requires Agrees(m, c, clock) && clock <= now
    requires c'.Keys <= c.Keys
    requires forall k :: k in c' ==> c'[k].response == c[k].response && c'[k].ts == c[k].ts
    requires forall k :: k in c && k !in c' ==> now - c[k].ts >= TTL_SECONDS
    ensures Agrees(m, c', now)
  {
    SubsetSize(c'.Keys, c.Keys);
    assert |c'| == |c'.Keys| && |c| == |c.Keys|;
    assert forall k :: k in c' ==> k in c;
  }

  predicate Oldest(c: Cache, key: string) {
    key in c && forall k :: k in c ==> c[key].ts <= c[k].ts
  }

  /** Room for a new key: the oldest entry of a full cache has 99 other keys behind it,
      so with the new one it is the put that is no longer owed. */
  lemma EvictedIsNotOwed(m: Puts, c: Cache, clock: real, victim: string, p: Stored)
    requires Agrees(m, c, clock) && |c| >= MAX_ENTRIES && p.key !in c && Oldest(c, victim) && clock < p.at
    ensures |Newer(m[p.key := p], victim)| >= MAX_ENTRIES
  {
    NewerAfterPut(m, clock, p, victim);
    var others := c.Keys - {victim};
    assert forall k :: k in others ==> m[k].at != m[victim].at;
    assert others <= Newer(m, victim);
    assert |others| == |c| - 1;
    SubsetSize(others + {p.key}, Newer(m[p.key := p], victim));
  }

  lemma SizeAgreed(m: Puts, c: Cache, clock: real)
    requires Agrees(m, c, clock)
    ensures |c| <= MAX_ENTRIES
  {
  }

  /** A put, after its eviction if it had one, keeps the agreement. */
  lemma PutKeeps(m: Puts, c: Cache, clock: real, evicted: set<string>, p: Stored, e: Entry)
    requires Agrees(m, c, clock) && clock < p.at && e.response == p.response && e.ts == p.at
    requires if |c| >= MAX_ENTRIES && p.key !in c
             then exists v :: Oldest(c, v) && evicted == {v} else evicted == {}
    ensures Agrees(m[p.key := p], (c - evicted)[p.key := e], p.at)
  {
    PutKeepsSize(c, evicted, p, e);
    PutKeepsOrder(m, c, clock, evicted, p, e);
    PutKeepsReasons(m, c, clock, evicted, p, e);
  }

  lemma PutKeepsSize(c: Cache, evicted: set<string>, p: Stored, e: Entry)
    requires |c| <= MAX_ENTRIES
    requires if |c| >= MAX_ENTRIES && p.key !in c
             then exists v :: Oldest(c, v) && evicted == {v} else evicted == {}
    ensures |(c - evicted)[p.key := e]| <= MAX_ENTRIES
  {
    var c' := (c - evicted)[p.key := e];
    assert |c'| == |c'.Keys| && |c| == |c.Keys|;
    assert c'.Keys == c.Keys - evicted + {p.key};
    if |c| >= MAX_ENTRIES && p.key !in c {
      var v :| Oldest(c, v) && evicted == {v};
      assert |c.Keys - {v}| == |c| - 1;
    } else if p.key in c {
      assert c'.Keys == c.Keys;
    }
  }

  lemma PutKeepsOrder(m: Puts, c: Cache, clock: real, evicted: set<string>, p: Stored, e: Entry)
    requires Agrees(m, c, clock) && clock < p.at && e.response == p.response && e.ts == p.at
    requires forall v :: v in evicted ==> Oldest(c, v)
    ensures var m', c' := m[p.key := p], (c - evicted)[p.key := e];
      Dated(m', p.at) && Faithful(m', c') && UpwardClosed(m', c', p.at)
  {
    hide Dated, Faithful, UpwardClosed, GoneForAReason, Oldest;
    PutKeepsDates(m, c, clock, evicted, p, e);
    PutKeepsUpwardClosed(m, c, clock, evicted, p, e);
  }

  lemma PutKeepsDates(m: Puts, c: Cache, clock: real, evicted: set<string>, p: Stored, e: Entry)
    requires Dated(m, clock) && Faithful(m, c) && clock < p.at && e.response == p.response && e.ts == p.at
    ensures Dated(m[p.key := p], p.at) && Faithful(m[p.key := p], (c - evicted)[p.key := e])
  {
  }

  lemma PutKeepsUpwardClosed(m: Puts, c: Cache, clock: real, evicted: set<string>, p: Stored, e: Entry)
    requires Dated(m, clock) && Faithful(m, c) && UpwardClosed(m, c, clock) && clock < p.at && e.ts == p.at
    requires forall v :: v in evicted ==> Oldest(c, v)
    ensures UpwardClosed(m[p.key := p], (c - evicted)[p.key := e], p.at)
  {
    assert forall v, k :: v in evicted && k in c ==> v in c && m[v].at <= m[k].at;
  }

  lemma PutKeepsReasons(m: Puts, c: Cache, clock: real, evicted: set<string>, p: Stored, e: Entry)
    requires Agrees(m, c, clock) && clock < p.at
    requires if |c| >= MAX_ENTRIES && p.key !in c
             then exists v :: Oldest(c, v) && evicted == {v} else evicted == {}
    ensures GoneForAReason(m[p.key := p], (c - evicted)[p.key := e], p.at)
  {
    var m', c' := m[p.key := p], (c - evicted)[p.key := e];
    forall k | k in m' && k !in c'
      ensures Dead(m'[k], p.at) || |Newer(m', k)| >= MAX_ENTRIES
    {
      NewerAfterPut(m, clock, p, k);
      if k in c {
        EvictedIsNotOwed(m, c, clock, k, p);
      } else {
        SubsetSize(Newer(m, k), Newer(m', k));
      }
    }
  }

  // ---------- what every operation keeps ----------

  ghost predicate Consistent(h: seq<Stored>, cache: Cache, saved: Cache, clock: real) {
    && Chronological(h) && (h == [] || h[|h| - 1].at <= clock)
    && Agrees(LastPuts(h), cache, clock)
    && Agrees(LastPuts(h), saved, clock)
  }

  lemma GetConsistent(h: seq<Stored>, cache: Cache, saved: Cache, clock: real, key: string, now: real)
    requires Consistent(h, cache, saved, clock) && clock < now
    ensures Lookup(cache, key, now) == Expected(LastPuts(h), key, now)
    ensures Consistent(h, if Lookup(cache, key, now).Some? then cache[key := cache[key].(hits := cache[key].hits + 1)]
                          else cache - {key}, saved, now)
  {
    hide Agrees, LastPuts, Expected;
    var m := LastPuts(h);
    LookupMeetsExpectation(m, cache, clock, key, now);
    DropDead(m, saved, clock, saved, now);
    if Lookup(cache, key, now).Some? {
      var c' := cache[key := cache[key].(hits := cache[key].hits + 1)];
      assert c'.Keys == cache.Keys;
      DropDead(m, cache, clock, c', now);
    } else {
      DropDead(m, cache, clock, cache - {key}, now);
    }
  }

  lemma PutConsistent(h: seq<Stored>, cache: Cache, saved: Cache, clock: real,
                      evicted: set<string>, p: Stored, e: Entry)
    requires Consistent(h, cache, saved, clock) && clock < p.at && e.response == p.response && e.ts == p.at
    requires if |cache| >= MAX_ENTRIES && p.key !in cache
             then exists v :: Oldest(cache, v) && evicted == {v} else evicted == {}
    ensures var c' := (cache - evicted)[p.key := e];
      Consistent(h + [p], c', c', p.at) && |c'| <= MAX_ENTRIES
  {
    hide Agrees;
    PutKeeps(LastPuts(h), cache, clock, evicted, p, e);
    assert (h + [p])[..|h|] == h;
    SizeAgreed(LastPuts(h)[p.key := p], (cache - evicted)[p.key := e], p.at);
  }

  /** What _load keeps of the file. */
  function Loaded(saved: Cache, now: real): (c: Cache) {
    map k | k in saved && now - saved[k].ts < TTL_SECONDS :: saved[k]
  }

  lemma LoadConsistent(h: seq<Stored>, cache: Cache, saved: Cache, clock: real, now: real)
    requires Consistent(h, cache, saved, clock) && clock < now
    ensures Consistent(h, Loaded(saved, now), saved, now)
  {
    hide Agrees;
    DropDead(LastPuts(h), saved, clock, Loaded(saved, now), now);
    DropDead(LastPuts(h), saved, clock, saved, now);
  }

  // ---------- the cache ----------

  /** The in-memory dictionary and the JSON file that every put rewrites. */
  class LLMCache {
    var cache: Cache
    var saved: Cache
    ghost var history: seq<Stored>
    ghost var clock: real

    ghost predicate Valid() reads this {
      Consistent(history, cache, saved, clock)
    }

    constructor ()
      ensures Valid() && cache == map[] && saved == map[] && history == []
    {
      cache, saved, history, clock := map[], map[], [], 0.0;
    }

    method Get(key: string, now: real) returns (r: Option<string>)
      requires Valid() && clock < now
      modifies this
      ensures Valid() && clock == now && history == old(history) && saved == old(saved)
      ensures r == Expected(LastPuts(history), key, now)
      ensures forall i, j :: 0 <= i < j < |history| ==> history[i].at < history[j].at
      ensures cache == if r.Some? then old(cache)[key := old(cache)[key].(hits := old(cache)[key].hits + 1)]
                       else old(cache) - {key}
    {
      hide Agrees, Expected, LastPuts;
      assert Chronological(history);
      hide Consistent;
      GetConsistent(history, cache, saved, clock, key, now);
      clock := now;
      if key !in cache {
        assert cache - {key} == cache;
        return None;
      }
      var entry := cache[key];
      if now - entry.ts > TTL_SECONDS {
        cache := cache - {key};
        return None;
      }
      cache := cache[key := entry.(hits := entry.hits + 1)];
      return Some(entry.response);
    }

    method Put(key: string, model: string, response: string, now: real)
      requires Valid() && clock < now
      modifies this
      ensures Valid() && clock == now
      ensures history == old(history) + [Stored(key, response, now)]
      ensures |cache| <= 100 && saved == cache
      ensures var e := Entry(response, now, model, 0, |response|);
        if |old(cache)| >= 100 && key !in old(cache)
        then exists victim :: Oldest(old(cache), victim) && cache == (old(cache) - {victim})[key := e]
        else cache == old(cache)[key := e]
    {
      hide Consistent;
      var e := Entry(response, now, model, 0, |response|);
      if |cache| >= MAX_ENTRIES && key !in cache {
        var oldestKey := OldestKey();
        PutConsistent(history, cache, saved, clock, {oldestKey}, Stored(key, response, now), e);
        cache := cache - {oldestKey};
      } else {
        PutConsistent(history, cache, saved, clock, {}, Stored(key, response, now), e);
        assert cache - {} == cache;
      }
      cache := cache[key := e];
      saved := cache;
      history := history + [Stored(key, response, now)];
      clock := now;
    }

    /** min over the dictionary by timestamp. */
    method OldestKey() returns (key: string)
      requires cache != map[]
      ensures Oldest(cache, key)
    {
      assert cache.Keys != {};
      key :| key in cache.Keys;
      var left := cache.Keys - {key};
      while left != {}
        invariant left <= cache.Keys && key in cache
        invariant forall k :: k in cache.Keys - left ==> cache[key].ts <= cache[k].ts
      {
        var k :| k in left;
        if cache[k].ts < cache[key].ts {
          key := k;
        }
        left := left - {k};
      }
    }

    /** A restart: the saved entries that are not over. The file drops an entry of exactly
        TTL_SECONDS that get would still serve; no get can come at that same instant. */
    method Load(now: real)
      requires Valid() && clock < now
      modifies this
      ensures Valid() && clock == now && history == old(history) && saved == old(saved)
      ensures cache == Loaded(old(saved), now)
    {
      hide Consistent;
      LoadConsistent(history, cache, saved, clock, now);
      cache := map k | k in saved && now - saved[k].ts < TTL_SECONDS :: saved[k];
      clock := now;
    }
  }

  /** get and _load disagree about exactly the entries that are TTL_SECONDS old. */
  lemma LoadIsStricterThanGet(saved: Cache, key: string, now: real)
    ensures Lookup(Loaded(saved, now), key, now) != Lookup(saved, key, now)
       <==> key in saved && now - saved[key].ts == TTL_SECONDS
  {
    if key in saved {
      assert key in Loaded(saved, now) <==> now - saved[key].ts < TTL_SECONDS;
    }
  }

  // ---------- cache keys ----------

  /** The text that is hashed; the hash itself is taken to be injective. */
  function RawKey(prompt: string, model: string, temperature: string): (raw: string)
  {
    model + ":" + (temperature + ":" + prompt)
  }

  /** What stands before the prompt. */
  function Head(model: string, temperature: string): (head: string) {
    model + ":" + (temperature + ":")
  }

  lemma KeyIsHeadAndPrompt(prompt: string, model: string, temperature: string)
    ensures RawKey(prompt, model, temperature) == Head(model, temperature) + prompt
  {
  }

  /** Two requests, the one with the shorter head first, have one key exactly when its head
      begins the other and its prompt begins with what the other has more. */
  lemma KeysEqualExactly(p1: string, m1: string, t1: string, p2: string, m2: string, t2: string)
    requires |Head(m1, t1)| <= |Head(m2, t2)|
    ensures RawKey(p1, m1, t1) == RawKey(p2, m2, t2)
       <==> Head(m1, t1) <= Head(m2, t2) && p1 == Head(m2, t2)[|Head(m1, t1)|..] + p2
  {
    hide Head, RawKey;
    KeyIsHeadAndPrompt(p1, m1, t1);
    KeyIsHeadAndPrompt(p2, m2, t2);
    PrefixesAgree(Head(m1, t1), p1, Head(m2, t2), p2);
  }

  lemma PrefixesAgree(a: string, x: string, b: string, y: string)
    requires |a| <= |b|
    ensures a + x == b + y <==> a <= b && x == b[|a|..] + y
  {
    if a + x == b + y {
      assert (a + x)[..|a|] == a && (b + y)[..|a|] == b[..|a|];
      assert (a + x)[|a|..] == x && (b + y)[|a|..] == b[|a|..] + y;
    }
    if a <= b && x == b[|a|..] + y {
      assert b == a + b[|a|..];
      assert a + x == (a + b[|a|..]) + y;
    }
  }

  /** Some prompts make two pairs of model and temperature share a key if and only if one
      head begins the other. */
  lemma KeysCollideExactly(m1: string, t1: string, m2: string, t2: string)
    ensures (exists p1, p2 :: RawKey(p1, m1, t1) == RawKey(p2, m2, t2))
       <==> Head(m1, t1) <= Head(m2, t2) || Head(m2, t2) <= Head(m1, t1)
  {
    hide Head, RawKey;
    if Head(m1, t1) <= Head(m2, t2) {
      KeysEqualExactly(Head(m2, t2)[|Head(m1, t1)|..] + "", m1, t1, "", m2, t2);
    } else if Head(m2, t2) <= Head(m1, t1) {
      KeysEqualExactly(Head(m1, t1)[|Head(m2, t2)|..] + "", m2, t2, "", m1, t1);
      assert RawKey("", m1, t1) == RawKey(Head(m1, t1)[|Head(m2, t2)|..] + "", m2, t2);
    }
    if p1, p2 :| RawKey(p1, m1, t1) == RawKey(p2, m2, t2) {
      if |Head(m1, t1)| <= |Head(m2, t2)| {
        KeysEqualExactly(p1, m1, t1, p2, m2, t2);
      } else {
        KeysEqualExactly(p2, m2, t2, p1, m1, t1);
      }
    }
  }

  lemma WholeHeads(m1: string, t1: string, m2: string, t2: string)
    requires ':' !in t1 && ':' !in t2
    requires Head(m1, t1) <= Head(m2, t2) && |Head(m1, t1)| > |m2| + 1
    ensures m1 == m2 && t1 == t2
  {
    var h1, h2 := Head(m1, t1), Head(m2, t2);
    assert h1[|m1|] == ':' && h1[|h1| - 1] == ':' && h2[|m2|] == ':' && h1[|m2|] == h2[|m2|];
    assert forall i :: |m2| < i < |h2| - 1 ==> h2[i] == t2[i - |m2| - 1];
    assert forall i :: |m1| < i < |h1| - 1 ==> h1[i] == t1[i - |m1| - 1];
    assert h1 == h2 && |m1| == |m2|;
    assert m1 == h1[..|m1|] && m2 == h2[..|m2|];
    assert t1 == h1[|m1| + 1..|h1| - 1] && t2 == h2[|m2| + 1..|h2| - 1];
  }

  /** A printed temperature has no colon. Then one head begins another exactly when the
      shorter one is all within the other's model name and the colon behind it. */
  lemma HeadBeginsExactly(m1: string, t1: string, m2: string, t2: string)
    requires ':' !in t1 && ':' !in t2 && (m1, t1) != (m2, t2)
    ensures Head(m1, t1) <= Head(m2, t2) <==> Head(m1, t1) <= m2 + ":"
  {
    assert Head(m2, t2) == (m2 + ":") + (t2 + ":");
    if Head(m1, t1) <= Head(m2, t2) && |Head(m1, t1)| > |m2| + 1 {
      WholeHeads(m1, t1, m2, t2);
    }
  }

  /** So at printed temperatures two pairs collide, for some prompts, exactly when one
      model name with its temperature is spelled out at the front of the other name. */
  lemma CollidingModels(m1: string, t1: string, m2: string, t2: string)
    requires ':' !in t1 && ':' !in t2 && (m1, t1) != (m2, t2)
    ensures (exists p1, p2 :: RawKey(p1, m1, t1) == RawKey(p2, m2, t2))
       <==> Head(m1, t1) <= m2 + ":" || Head(m2, t2) <= m1 + ":"
  {
    hide Head, RawKey;
    KeysCollideExactly(m1, t1, m2, t2);
    HeadBeginsExactly(m1, t1, m2, t2);
    HeadBeginsExactly(m2, t2, m1, t1);
  }

  lemma NoColonNoHead(m1: string, t1: string, m2: string)
    requires ':' !in m2
    ensures !(Head(m1, t1) <= m2 + ":")
  {
    assert Head(m1, t1)[|m1|] == ':' && |m1| + 1 < |Head(m1, t1)|;
    assert forall i :: 0 <= i < |m2| ==> (m2 + ":")[i] == m2[i];
  }

  /** Requests have different cache keys as long as model names have no colon. */
  lemma RawKeyInjective(p1: string, m1: string, t1: string, p2: string, m2: string, t2: string)
    requires ':' !in m1 && ':' !in t1 && ':' !in m2 && ':' !in t2
    requires RawKey(p1, m1, t1) == RawKey(p2, m2, t2)
    ensures p1 == p2 && m1 == m2 && t1 == t2
  {
    hide Head, RawKey;
    if (m1, t1) != (m2, t2) {
      CollidingModels(m1, t1, m2, t2);
      NoColonNoHead(m1, t1, m2);
      NoColonNoHead(m2, t2, m1);
    } else {
      KeysEqualExactly(p1, m1, t1, p2, m2, t2);
      assert Head(m1, t1)[|Head(m1, t1)|..] + p2 == p2;
    }
  }

  /** With a colon in the model name two different requests share an entry. */
  lemma ColonMakesKeysCollide()
    ensures RawKey("p", "m:0.1", "0.2") == RawKey("0.2:p", "m", "0.1")
  {
    assert Head("m", "0.1") == "m:0.1:" && Head("m:0.1", "0.2") == "m:0.1:0.2:";
    KeysEqualExactly("0.2:p", "m", "0.1", "p", "m:0.1", "0.2");
  }
}
