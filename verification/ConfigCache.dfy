/** The cache of the configuration client (src/system_config_client.ts). */
module ConfigCache {
  import opened Wrappers
  import opened JsText

  // The server is one that others write to, and the clock never goes back. Calls of the class do not overlap; those
  // that do are a step system at the end.

  const CACHE_SECONDS := 10
  const SERVICES: Text := Lit("services/")
  const RBAC: Text := Lit("system/rbac/")
  const COLON: Unit := 0x3A

  /** A value and its version, as the server holds them. */
  datatype Held = Held(value: Text, version: int)

  /**
   * One answer of the server: when it was asked and answered (in milliseconds), and all it held at a moment in
   * between.
   */
  datatype Answer = Answer(sent: nat, sampled: nat, received: nat, values: map<Text, Held>)

  datatype Entry = Entry(held: Held, cachedAt: nat)

  function Seconds(ms: nat): nat { ms / 1000 }

  predicate NeedCache(key: Text) { StartsWith(key, SERVICES) || StartsWith(key, RBAC) }

  /** The entry may still be used. */
  predicate Usable(e: Entry, now: nat) { e.cachedAt + CACHE_SECONDS >= Seconds(now) }

  /** The server, the other writers and the clock. */
  class World {
    var now: nat
    var values: map<Text, Held>
    ghost var answers: seq<Answer>
    /** Every call for a key with what it returned, and whether each write succeeded. */
    ghost var fetched: seq<(Text, Result<Option<Held>, ()>)>
    ghost var writes: seq<bool>

    constructor (now: nat, values: map<Text, Held>)
      ensures this.now == now && this.values == values && answers == [] && fetched == [] && writes == []
    {
      this.now, this.values, this.answers := now, values, [];
      fetched, writes := [], [];
    }

    /** Time passes and others write what they like. */
    method Pass()
      modifies this`now, this`values
      ensures now >= old(now)
    {
      var ms: nat :| true;
      now := now + ms;
      values := *;
    }

    /** `sys_config_get`: Err is a failed call, None a key the server does not hold. */
    method Fetch(key: Text) returns (r: Result<Option<Held>, ()>)
      modifies this`now, this`values, this`answers, this`fetched
      ensures now >= old(now) && fetched == old(fetched) + [(key, r)]
      ensures r.Err? ==> answers == old(answers)
      ensures r.Ok? ==>
                && |answers| == |old(answers)| + 1 && answers[..|old(answers)|] == old(answers)
                && var a := answers[|old(answers)|];
                && old(now) == a.sent <= a.sampled <= a.received == now
                && r.value == if key in a.values then Some(a.values[key]) else None
    {
      ghost var sent := now;
      Pass();
      if * {
        r := Err(());
        fetched := fetched + [(key, r)];
        return;
      }
      r := Ok(if key in values then Some(values[key]) else None);
      ghost var sampled, held := now, values;
      Pass();
      answers, fetched := answers + [Answer(sent, sampled, now, held)], fetched + [(key, r)];
    }

    /** Any write. When the call succeeds it has taken effect; when it fails it may have. */
    method Write() returns (ok: bool)
      modifies this`now, this`values, this`writes
      ensures now >= old(now) && writes == old(writes) + [ok]
    {
      Pass();
      ok := *;
      writes := writes + [ok];
    }
  }

  datatype GetResult = GetResult(held: Held, isChanged: bool)

  datatype GetError = NotFound | CallFailed

  /** The map with an answer stored that arrived at `now`. */
  function Stored(cache: map<Text, Entry>, key: Text, held: Held, now: nat): map<Text, Entry> {
    if NeedCache(key) then cache[key := Entry(held, Seconds(now))] else cache
  }

  /**
   * What a `get` made at `asked` returns and leaves in the cache. `reply` is the server's, used when no entry is:
   * None is a failed call, Some(None) a key it does not hold; it arrives at `received`.
   */
  function GetSpec(cache: map<Text, Entry>, key: Text, asked: nat, reply: Option<Option<Held>>, received: nat)
    : (Result<GetResult, GetError>, map<Text, Entry>)
  {
    if key in cache && Usable(cache[key], asked) then (Ok(GetResult(cache[key].held, false)), cache)
    else if reply.None? then (Err(CallFailed), cache - {key})
    else if reply.value.None? then (Err(NotFound), cache - {key})
    else (Ok(GetResult(reply.value.value, true)), Stored(cache - {key}, key, reply.value.value, received))
  }

  ghost predicate Gives(a: Answer, key: Text, held: Held, at: nat) {
    key in a.values && a.values[key] == held && Seconds(a.received) == at
  }

  /** Among the answers from number `since` on, one that arrived in second `at` gives `key` the value. */
  ghost predicate Backed(answers: seq<Answer>, since: nat, key: Text, held: Held, at: nat) {
    exists i :: since <= i < |answers| && Gives(answers[i], key, held, at)
  }

  predicate InOrder(a: Answer, now: nat) { a.sent <= a.sampled <= a.received <= now }

  /** What the server held then is no more than ten clock seconds and the answer's own delay in the past. */
  predicate Young(a: Answer, now: nat) {
    Seconds(now) - Seconds(a.sampled) <= CACHE_SECONDS + (Seconds(a.received) - Seconds(a.sent))
  }

  /** ... and that answer arrived no more than ten clock seconds before `now`. */
  ghost predicate Recent(answers: seq<Answer>, since: nat, key: Text, held: Held, now: nat) {
    exists i :: since <= i < |answers| && Gives(answers[i], key, held, Seconds(answers[i].received))
      && Seconds(answers[i].received) + CACHE_SECONDS >= Seconds(now) && Young(answers[i], now)
  }

  lemma RecentFrom(answers: seq<Answer>, since: nat, key: Text, held: Held, at: nat, now: nat)
    requires Backed(answers, since, key, held, at) && at + CACHE_SECONDS >= Seconds(now)
    requires forall i | 0 <= i < |answers| :: InOrder(answers[i], now)
    ensures Recent(answers, since, key, held, now)
  {
    var i :| since <= i < |answers| && Gives(answers[i], key, held, at);
    assert InOrder(answers[i], now);
  }

  /** More answers leave what is backed backed. */
  lemma KeepBacked(before: seq<Answer>, after: seq<Answer>, since: nat, key: Text, held: Held, at: nat)
    requires before <= after && Backed(before, since, key, held, at)
    ensures Backed(after, since, key, held, at)
  {
    var i :| since <= i < |before| && Gives(before[i], key, held, at);
    assert after[i] == before[i];
  }

  /** The entries of all other keys. */
  function Without<V>(cache: map<Text, V>, keys: seq<Text>): map<Text, V> {
    map k | k in cache && k !in keys :: cache[k]
  }

  function Stamped(at: map<Text, nat>, keys: seq<Text>, n: nat): map<Text, nat> {
    map k | k in at.Keys + (set x | x in keys) :: if k in keys then n else at[k]
  }

  lemma NoKeys<V>(cache: map<Text, V>, at: map<Text, nat>, n: nat)
    ensures Without(cache, []) == cache && Stamped(at, [], n) == at
  {}

  lemma OneMoreKey<V>(cache: map<Text, V>, at: map<Text, nat>, keys: seq<Text>, key: Text, n: nat)
    ensures Without(cache, keys + [key]) == Without(cache, keys) - {key}
    ensures Stamped(at, keys + [key], n) == Stamped(at, keys, n)[key := n]
  {}

  class SystemConfigClient {
    const world: World
    var configCache: map<Text, Entry>
    /** For each key, how many answers there were when this client's last successful write of it ended. */
    ghost var writtenAt: map<Text, nat>

    /** Answers from this one on are later than the last write of the key. */
    ghost function Since(key: Text): nat
      reads this
    {
      if key in writtenAt then writtenAt[key] else 0
    }

    ghost predicate BackedEntry(key: Text, e: Entry)
      reads this, world
    {
      Backed(world.answers, Since(key), key, e.held, e.cachedAt)
    }

    ghost predicate Valid()
      reads this, world
    {
      && (forall i | 0 <= i < |world.answers| :: InOrder(world.answers[i], world.now))
      && (forall key | key in configCache :: NeedCache(key) && BackedEntry(key, configCache[key]))
      && (forall key | key in writtenAt :: writtenAt[key] <= |world.answers|)
    }

    constructor (world: World)
      requires world.answers == []
      ensures Valid() && this.world == world && configCache == map[] && writtenAt == map[]
    {
      this.world := world;
      configCache := map[];
      writtenAt := map[];
    }

    /** `getConfigCache`: an entry that is too old is dropped. */
    method GetConfigCache(key: Text) returns (r: Option<Entry>)
      requires Valid()
      modifies this`configCache
      ensures Valid()
      ensures r == if key in old(configCache) && Usable(old(configCache)[key], world.now)
                then Some(old(configCache)[key]) else None
      ensures configCache == if r.Some? then old(configCache) else old(configCache) - {key}
    {
      if key !in configCache {
        return None;
      }
      var cached := configCache[key];
      if cached.cachedAt + CACHE_SECONDS < Seconds(world.now) {
        configCache := configCache - {key};
        return None;
      }
      return Some(cached);
    }

    /** `setConfigCache`, with an answer just received. */
    method SetConfigCache(key: Text, held: Held) returns (isChanged: bool)
      requires Valid() && BackedEntry(key, Entry(held, Seconds(world.now)))
      modifies this`configCache
      ensures Valid()
      ensures isChanged <==> !NeedCache(key) || key !in old(configCache) || old(configCache)[key].held != held
      ensures configCache == Stored(old(configCache), key, held, world.now)
    {
      if !NeedCache(key) {
        return true;
      }
      isChanged := key !in configCache || configCache[key].held != held;
      configCache := configCache[key := Entry(held, Seconds(world.now))];
    }

    /**
     * The value is one the server held between asking and answering. The answer arrived no more than ten clock
     * seconds ago and was asked for after this client's last successful write of the key. `reply` is what the server
     * answered, if it was asked.
     */
    method Get(key: Text) returns (r: Result<GetResult, GetError>, ghost reply: Option<Option<Held>>)
      requires Valid()
      modifies this`configCache, world
      ensures Valid() && writtenAt == old(writtenAt)
      ensures (r, configCache) == GetSpec(old(configCache), key, old(world.now), reply, world.now)
      ensures r.Ok? ==> Recent(world.answers, Since(key), key, r.value.held, world.now)
      ensures r.Ok? && !NeedCache(key) ==> reply.Some?
      ensures r.Ok? ==> (r.value.isChanged <==> reply.Some?)
      ensures if key in old(configCache) && Usable(old(configCache)[key], old(world.now))
                then reply.None? && world.fetched == old(world.fetched)
              else
                && |world.fetched| == |old(world.fetched)| + 1 && old(world.fetched) <= world.fetched
                && var (asked, got) := world.fetched[|old(world.fetched)|];
                   asked == key && (if reply.None? then got.Err? else got == Ok(reply.value))
      ensures world.writes == old(world.writes)
      ensures reply.None? ==> world.answers == old(world.answers)
      ensures reply.Some? ==>
                && |world.answers| == |old(world.answers)| + 1
                && world.answers[..|old(world.answers)|] == old(world.answers)
                && var a := world.answers[|old(world.answers)|];
                && a.sent == old(world.now) && a.received == world.now
                && reply.value == if key in a.values then Some(a.values[key]) else None
    {
      var cachedValue := GetConfigCache(key);
      if cachedValue.Some? {
        assert BackedEntry(key, cachedValue.value);
        RecentFrom(world.answers, Since(key), key, cachedValue.value.held, cachedValue.value.cachedAt, world.now);
        return Ok(GetResult(cachedValue.value.held, false)), None;
      }
      ghost var before := world.answers;
      var result := world.Fetch(key);
      forall k | k in configCache
        ensures BackedEntry(k, configCache[k])
      {
        KeepBacked(before, world.answers, Since(k), k, configCache[k].held, configCache[k].cachedAt);
      }
      if result.Err? {
        return Err(CallFailed), None;
      }
      if result.value.None? {
        return Err(NotFound), Some(None);
      }
      var held := result.value.value;
      assert Gives(world.answers[|before|], key, held, Seconds(world.now));
      assert Backed(world.answers, Since(key), key, held, Seconds(world.now));
      RecentFrom(world.answers, Since(key), key, held, Seconds(world.now), world.now);
      var isChanged := SetConfigCache(key, held);
      return Ok(GetResult(held, isChanged)), Some(Some(held));
    }

    /** `setByJsonPath`, `create`, `delete` and `append`: a write that succeeds drops the entry. */
    method WriteKey(key: Text) returns (ok: bool)
      requires Valid()
      modifies this, world`now, world`values, world`writes
      ensures Valid() && world.writes == old(world.writes) + [ok]
      ensures ok ==> key !in configCache && writtenAt == old(writtenAt)[key := |world.answers|]
      ensures ok ==> configCache == old(configCache) - {key}
      ensures !ok ==> configCache == old(configCache) && writtenAt == old(writtenAt)
    {
      ok := world.Write();
      if ok {
        configCache := configCache - {key};
        writtenAt := writtenAt[key := |world.answers|];
      }
    }

    /** `set`, which refuses an empty key or value and a key with a colon before it calls the server. */
    method Set(key: Text, value: Text) returns (ok: bool)
      requires Valid()
      modifies this, world`now, world`values, world`writes
      ensures Valid()
      ensures if key == [] || value == [] || ':' as int in key then !ok && world.writes == old(world.writes)
              else world.writes == old(world.writes) + [ok]
      ensures ok ==> configCache == old(configCache) - {key} && writtenAt == old(writtenAt)[key := |world.answers|]
      ensures !ok ==> configCache == old(configCache) && writtenAt == old(writtenAt)
    {
      if key == [] || value == [] || COLON in key {
        return false;
      }
      ok := WriteKey(key);
    }

    /** `execTx`: every key of the transaction is dropped. */
    method ExecTx(keys: seq<Text>) returns (ok: bool)
      requires Valid()
      modifies this, world`now, world`values, world`writes
      ensures Valid() && world.writes == old(world.writes) + [ok]
      ensures ok ==> configCache == Without(old(configCache), keys)
      ensures ok ==> writtenAt == Stamped(old(writtenAt), keys, |world.answers|)
      ensures !ok ==> configCache == old(configCache) && writtenAt == old(writtenAt)
    {
      hide Without, Stamped;
      ok := world.Write();
      if !ok {
        return;
      }
      NoKeys(configCache, writtenAt, |world.answers|);
      assert keys[..0] == [];
      for n := 0 to |keys|
        invariant Valid() && world.answers == old(world.answers) && world.writes == old(world.writes) + [ok]
        invariant configCache == Without(old(configCache), keys[..n])
        invariant writtenAt == Stamped(old(writtenAt), keys[..n], |world.answers|)
      {
        assert keys[..n + 1] == keys[..n] + [keys[n]];
        OneMoreKey(old(configCache), old(writtenAt), keys[..n], keys[n], |world.answers|);
        DropWritten(keys[n]);
      }
      assert keys[..|keys|] == keys;
    }

    method DropWritten(key: Text)
      requires Valid()
      modifies this`configCache, this`writtenAt
      ensures Valid() && configCache == old(configCache) - {key} && writtenAt == old(writtenAt)[key := |world.answers|]
    {
      configCache := configCache - {key};
      writtenAt := writtenAt[key := |world.answers|];
    }
  }

  /** A value answered to one `get` is returned by a later one at `now`, from the cache. */
  predicate ServedAgain(cache: map<Text, Entry>, key: Text, held: Held, sent: nat, received: nat, now: nat) {
    var after := GetSpec(cache, key, sent, Some(Some(held)), received).1;
    GetSpec(after, key, now, None, now).0 == Ok(GetResult(held, false))
  }

  /**
   * Ten seconds are counted from the answer's arrival. So a client that asked and was answered serves no value from
   * more than ten clock seconds ago, wherever between the two the server was read, exactly when the answer arrived
   * in the clock second in which it was asked for; any longer answer is served again when it is older.
   */
  lemma TenSecondsIff(cache: map<Text, Entry>, key: Text, held: Held, sent: nat, received: nat)
    requires sent <= received && NeedCache(key) && (key in cache ==> !Usable(cache[key], sent))
    ensures (forall sampled: nat, now: nat | sent <= sampled <= received <= now
               && ServedAgain(cache, key, held, sent, received, now) ::
               Seconds(now) - Seconds(sampled) <= CACHE_SECONDS)
       <==> Seconds(sent) == Seconds(received)
  {
    if Seconds(sent) < Seconds(received) {
      var now := (Seconds(received) + CACHE_SECONDS) * 1000;
      assert ServedAgain(cache, key, held, sent, received, now);
      assert Seconds(now) - Seconds(sent) > CACHE_SECONDS;
    }
  }

  /** Which keys are cached, and for how long an entry is used: ten seconds of the clock. */
  lemma CachedIs(key: Text, e: Entry, now: nat)
    ensures NeedCache(key) <==> Lit("services/") <= key || Lit("system/rbac/") <= key
    ensures Usable(e, now) <==> now < (e.cachedAt + 11) * 1000
  {}

  // ---- overlapping calls, as a step system

  /** A `get` that has asked the server: for what, and at which step. */
  datatype Question = Question(key: Text, asked: nat)

  /** A cache entry, and the step at which its value was asked for. */
  datatype Kept = Kept(entry: Entry, asked: nat)

  datatype Calls = Calls(now: nat, step: nat, cache: map<Text, Kept>, questions: map<nat, Question>,
      written: map<Text, nat>)

  datatype Happening =
    | Wait(ms: nat)
    | Ask(key: Text)                                // `get`, up to its call of the server
    | Arrives(question: nat, reply: Option<Option<Held>>)   // and from there on
    | Written(key: Text)                            // a write of the key by this client succeeds

  /** What `get` returns at once. */
  function FromCache(s: Calls, key: Text): Option<Kept> {
    if key in s.cache && Usable(s.cache[key].entry, s.now) then Some(s.cache[key]) else None
  }

  function Happens(s: Calls, h: Happening): Calls {
    var t := s.(step := s.step + 1);
    match h
    case Wait(ms) => t.(now := s.now + ms)
    case Ask(key) =>
      if FromCache(s, key).Some? then t
      else t.(cache := s.cache - {key}, questions := s.questions[s.step := Question(key, s.step)])
    case Arrives(q, reply) =>
      if q !in s.questions then t
      else
        var key := s.questions[q].key;
        var u := t.(questions := s.questions - {q});
        if reply.None? || reply.value.None? || !NeedCache(key) then u
        else u.(cache := s.cache[key := Kept(Entry(reply.value.value, Seconds(s.now)), s.questions[q].asked)])
    case Written(key) => t.(cache := s.cache - {key}, written := s.written[key := s.step])
  }

  function AllHappen(hs: seq<Happening>): Calls {
    if hs == [] then Calls(0, 0, map[], map[], map[]) else Happens(AllHappen(hs[..|hs| - 1]), hs[|hs| - 1])
  }

  /** The key is served from the cache with a value asked for before this client's last write of it. */
  predicate ServesOld(s: Calls, key: Text) {
    FromCache(s, key).Some? && key in s.written && FromCache(s, key).value.asked < s.written[key]
  }

  /** It is, or a question older than that write is still unanswered. */
  predicate AtRisk(s: Calls, key: Text) {
    ServesOld(s, key) || exists q | q in s.questions ::
                           s.questions[q].key == key && key in s.written && s.questions[q].asked < s.written[key]
  }

  predicate NoWrite(hs: seq<Happening>, key: Text) { forall i | 0 <= i < |hs| :: hs[i] != Written(key) }

  ghost predicate Past(s: Calls) {
    && (forall q | q in s.questions :: s.questions[q].asked < s.step)
    && (forall key | key in s.written :: s.written[key] < s.step)
  }

  lemma {:induction false} AllPast(hs: seq<Happening>)
    ensures Past(AllHappen(hs))
    decreases |hs|
  {
    if hs != [] { AllPast(hs[..|hs| - 1]); }
  }

  lemma StaysSafe(s: Calls, h: Happening, key: Text)
    requires Past(s) && !AtRisk(s, key) && h != Written(key)
    ensures !AtRisk(Happens(s, h), key)
  {}

  lemma {:induction false} RunsSafe(hs: seq<Happening>, more: seq<Happening>, key: Text)
    requires !AtRisk(AllHappen(hs), key) && NoWrite(more, key)
    ensures !AtRisk(AllHappen(hs + more), key)
    decreases |more|
  {
    hide AtRisk, Happens, Past;
    if more == [] {
      assert hs + more == hs;
    } else {
      var before, last := more[..|more| - 1], more[|more| - 1];
      RunsSafe(hs, before, key);
      AllPast(hs + before);
      StaysSafe(AllHappen(hs + before), last, key);
      assert (hs + more)[..|hs + more| - 1] == hs + before && (hs + more)[|hs + more| - 1] == last;
    }
  }

  lemma Next(hs: seq<Happening>, h: Happening)
    ensures AllHappen(hs + [h]) == Happens(AllHappen(hs), h)
  {
    assert (hs + [h])[..|hs|] == hs;
  }

  /** A write puts its key at risk exactly when a `get` of it is under way. */
  lemma WriteRisks(s: Calls, key: Text)
    requires Past(s)
    ensures AtRisk(Happens(s, Written(key)), key) <==> exists q | q in s.questions :: s.questions[q].key == key
  {}

  /**
   * In every run: after this client's write of a cached key has succeeded, `get` can serve from its cache a value that
   * was asked for before the write exactly when a `get` of the key was under way when the write returned.
   */
  lemma OldAfterWriteIff(hs: seq<Happening>, key: Text)
    requires NeedCache(key)
    ensures (exists more: seq<Happening> :: NoWrite(more, key) && ServesOld(AllHappen(hs + [Written(key)] + more), key))
       <==> exists q | q in AllHappen(hs).questions :: AllHappen(hs).questions[q].key == key
  {
    hide AllHappen, Past, NeedCache;
    var s := AllHappen(hs);
    AllPast(hs);
    WriteRisks(s, key);
    Next(hs, Written(key));
    var t := AllHappen(hs + [Written(key)]);
    if q :| q in s.questions && s.questions[q].key == key {
      var late := Arrives(q, Some(Some(Held([], 0))));
      Next(hs + [Written(key)], late);
      LateAnswer(s, key, q);
      assert NoWrite([late], key) && ServesOld(AllHappen(hs + [Written(key)] + [late]), key);
    }
    if more: seq<Happening> :| NoWrite(more, key) && ServesOld(AllHappen(hs + [Written(key)] + more), key) {
      if !AtRisk(t, key) {
        RunsSafe(hs + [Written(key)], more, key);
      }
    }
  }

  /** The answer of a question older than the write is cached when it arrives. */
  lemma LateAnswer(s: Calls, key: Text, q: nat)
    requires Past(s) && NeedCache(key) && q in s.questions && s.questions[q].key == key
    ensures ServesOld(Happens(Happens(s, Written(key)), Arrives(q, Some(Some(Held([], 0))))), key)
  {
    hide NeedCache;
  }

  function CacheOf(s: Calls): map<Text, Entry> { map k | k in s.cache :: s.cache[k].entry }

  /** A call that nothing overlaps does to the cache what `get` does. */
  lemma AloneIsGet(s: Calls, key: Text, ms: nat, reply: Option<Option<Held>>)
    ensures var asked := Happens(s, Ask(key));
            var answered := Happens(Happens(asked, Wait(ms)), Arrives(s.step, reply));
            if FromCache(s, key).Some? then
              && GetSpec(CacheOf(s), key, s.now, reply, s.now)
                     == (Ok(GetResult(s.cache[key].entry.held, false)), CacheOf(s))
              && CacheOf(asked) == CacheOf(s) && asked.questions == s.questions
            else
              && s.step in asked.questions && asked.questions[s.step] == Question(key, s.step)
              && CacheOf(answered) == GetSpec(CacheOf(s), key, s.now, reply, s.now + ms).1
  {
    hide NeedCache;
    var asked := Happens(s, Ask(key));
    assert CacheOf(s).Keys == s.cache.Keys;
    if FromCache(s, key).None? {
      assert CacheOf(asked) == CacheOf(s) - {key};
    }
  }

  /** A write drops the key, whatever is under way. */
  lemma WriteDrops(s: Calls, key: Text)
    ensures CacheOf(Happens(s, Written(key))) == CacheOf(s) - {key}
    ensures Happens(s, Written(key)).questions == s.questions
  {}
}
