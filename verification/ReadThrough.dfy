/** The native client's read-through cache, fetches through it, and the retry after a 401. */
module ReadThrough {
  import opened Options
  import opened BoundedReaders
  import Utf8

  type Key = nat
  type Token = nat

  const MAX_ENTRY_BYTES := 4 * 1024 * 1024

  datatype Entry = Entry(body: Bytes, freshUntil: nat, staleUntil: nat)

  type Cache = map<Key, Entry>

  /** A cacheable read: its key and how long an answer stays fresh, and usable at all. */
  datatype Policy = Policy(key: Key, freshFor: nat, staleFor: nat)

  datatype ApiError = Network | Status(code: nat) | Decode

  datatype Reply = NoReply | Reply(status: nat, declared: Option<nat>, chunks: seq<Chunk>)

  /**
    * A write to the cache fails, or succeeds and then evicts some entries to stay in quota. On
    * Windows the older file is removed before the new one takes its place, so that a write
    * which fails in between loses it.
    */
  datatype PutOutcome = Failed(olderLost: bool) | Stored(evicted: set<Key>)

  /**
    * What the world does to one fetch: whether the HTTP client could be built, whether each
    * cache read works and when it happens, what the server answers, how the write goes.
    */
  datatype World = World(client: bool, read1: bool, now1: nat, reply: Reply, read2: bool, now2: nat, put: PutOutcome)

  predicate Success(status: nat) {
    200 <= status < 300
  }

  /** An expired entry is removed by the read that finds it. */
  function Swept(cache: Cache, key: Key, now: nat, works: bool): Cache {
    if works && key in cache && now > cache[key].staleUntil then cache - {key} else cache
  }

  function Hit(cache: Cache, key: Key, now: nat, works: bool): Option<Entry> {
    if works && key in cache && now <= cache[key].staleUntil then Some(cache[key]) else None
  }

  function Written(cache: Cache, p: Policy, body: Bytes, now: nat, put: PutOutcome): Cache {
    if |body| > MAX_ENTRY_BYTES then cache
    else if put.Failed? then if put.olderLost then cache - {p.key} else cache
    else cache[p.key := Entry(body, now + p.freshFor, now + p.staleFor)] - put.evicted
  }

  /** An empty body stands for JSON null. */
  function DecodeBody<T>(parse: Bytes -> Option<T>, body: Bytes): Result<T, ApiError> {
    var jsonNull: Bytes := [0x6E, 0x75, 0x6C, 0x6C];
    var value := parse(if body == [] then jsonNull else body);
    if value.Some? then Ok(value.value) else Err(Decode)
  }

  /** The bodies a decoder can read. */
  function Readable<T>(parse: Bytes -> Option<T>): Bytes -> bool {
    body => DecodeBody(parse, body).Ok?
  }

  /** The body a successful exchange delivers. */
  function Delivered(reply: Reply): Option<Bytes> {
    if reply.Reply? && Success(reply.status) then
      var body := BodyWithin(MAX_API_RESPONSE_BYTES, reply.declared, reply.chunks);
      if body.Ok? then Some(body.value) else None
    else None
  }

  class Client {
    var cache: Cache
    var sent: seq<(Token, Reply)>  // requests that went out, with their answers
    var refreshes: nat

    constructor ()
      ensures cache == map[] && sent == [] && refreshes == 0
    {
      cache, sent, refreshes := map[], [], 0;
    }

    method Get(key: Key, now: nat, works: bool) returns (hit: Option<Entry>)
      modifies this`cache
      ensures hit == Hit(old(cache), key, now, works)
      ensures cache == Swept(old(cache), key, now, works)
    {
      if !works || key !in cache {
        return None;
      }
      if now > cache[key].staleUntil {
        cache := cache - {key};
        return None;
      }
      return Some(cache[key]);
    }

    method Put(p: Policy, body: Bytes, now: nat, put: PutOutcome)
      modifies this`cache
      ensures cache == Written(old(cache), p, body, now, put)
    {
      if |body| > MAX_ENTRY_BYTES {
        return;
      }
      match put {
        case Stored(evicted) => cache := cache[p.key := Entry(body, now + p.freshFor, now + p.staleFor)] - evicted;
        case Failed(olderLost) =>
          if olderLost {
            cache := cache - {p.key};
          }
      }
    }

    /** One fetch: a fresh entry, or the server, or an old entry when the server fails. */
    method DoFetch<T>(parse: Bytes -> Option<T>, policy: Option<Policy>, token: Token, w: World)
        returns (r: Result<T, ApiError>)
      modifies this`cache, this`sent
      ensures r == Fetched(parse, old(cache), policy, w)
      ensures cache == CacheAfter(Readable(parse), old(cache), policy, w)
      ensures sent == old(sent) + if Sends(Readable(parse), old(cache), policy, w) then [(token, w.reply)] else []
    {
      if policy.Some? {
        var hit := Get(policy.value.key, w.now1, w.read1);
        if hit.Some? && w.now1 <= hit.value.freshUntil {
          var value := DecodeBody(parse, hit.value.body);
          if value.Ok? {
            return value;
          }
        }
      }
      if !w.client {
        return Err(Network);
      }
      sent := sent + [(token, w.reply)];
      match w.reply {
        case NoReply =>
          if policy.Some? {
            var hit := Get(policy.value.key, w.now2, w.read2);
            if hit.Some? {
              return DecodeBody(parse, hit.value.body);
            }
          }
          return Err(Network);
        case Reply(status, declared, chunks) =>
          var body, peak := BoundedBody(MAX_API_RESPONSE_BYTES, declared, chunks);
          if body.Err? {
            return Err(Network);
          }
          if !Success(status) {
            if status >= 500 && policy.Some? {
              var hit := Get(policy.value.key, w.now2, w.read2);
              if hit.Some? {
                return DecodeBody(parse, hit.value.body);
              }
            }
            return Err(Status(status));
          }
          if policy.Some? {
            Put(policy.value, body.value, w.now2, w.put);
          }
          return DecodeBody(parse, body.value);
      }
    }

    /** A fetch that answers 401 is repeated once, with a refreshed token. */
    method FetchJson<T>(parse: Bytes -> Option<T>, policy: Option<Policy>, token: Token, w1: World,
                        refresher: Option<Option<Token>>, w2: World) returns (r: Result<T, ApiError>)
      modifies this
      ensures old(sent) <= sent && |sent| <= |old(sent)| + 2
      ensures refreshes <= old(refreshes) + 1
      ensures refreshes > old(refreshes) ==> Fetched(parse, old(cache), policy, w1) == Err(Status(401))
      ensures |sent| == |old(sent)| + 2 ==>
        && refreshes == old(refreshes) + 1 && refresher.Some? && refresher.value.Some?
        && sent[|old(sent)|].0 == token && Answered(sent[|old(sent)|].1, 401)
        && sent[|old(sent)| + 1].0 == refresher.value.value
      ensures Fetched(parse, old(cache), policy, w1) != Err(Status(401)) ==>
        && r == Fetched(parse, old(cache), policy, w1) && cache == CacheAfter(Readable(parse), old(cache), policy, w1)
      ensures Fetched(parse, old(cache), policy, w1) == Err(Status(401)) ==>
        var mid := CacheAfter(Readable(parse), old(cache), policy, w1);
        if refresher.Some? && refresher.value.Some?
        then r == Fetched(parse, mid, policy, w2) && cache == CacheAfter(Readable(parse), mid, policy, w2)
        else r == Err(Status(401)) && cache == mid
    {
      var first := DoFetch(parse, policy, token, w1);
      if first != Err(Status(401)) {
        return first;
      }
      if refresher.None? {
        return Err(Status(401));
      }
      refreshes := refreshes + 1;
      if refresher.value.None? {
        return Err(Status(401));
      }
      r := DoFetch(parse, policy, refresher.value.value, w2);
    }
  }

  predicate Answered(reply: Reply, status: nat) {
    reply.Reply? && reply.status == status
  }

  // ---------------------------------------------------------------- one fetch as a function

  /** The body of a fresh entry that can be used without asking the server. */
  function FreshBody(readable: Bytes -> bool, cache: Cache, policy: Option<Policy>, w: World): Option<Bytes> {
    if policy.None? then None
    else
      var hit := Hit(cache, policy.value.key, w.now1, w.read1);
      if hit.Some? && w.now1 <= hit.value.freshUntil && readable(hit.value.body) then Some(hit.value.body) else None
  }

  function Looked(cache: Cache, policy: Option<Policy>, w: World): Cache {
    if policy.Some? then Swept(cache, policy.value.key, w.now1, w.read1) else cache
  }

  predicate Sends(readable: Bytes -> bool, cache: Cache, policy: Option<Policy>, w: World) {
    FreshBody(readable, cache, policy, w).None? && w.client
  }

  /** The server is down: no answer, or an answer in the 500s read in full. */
  predicate FallsBack(w: World) {
    w.reply.NoReply? ||
    (w.reply.status >= 500 && BodyWithin(MAX_API_RESPONSE_BYTES, w.reply.declared, w.reply.chunks).Ok?)
  }

  /** What the caller gets once the exchange is over, with the cache as it is then. */
  function ServerAnswer<T>(parse: Bytes -> Option<T>, cache: Cache, policy: Option<Policy>, w: World): Result<T, ApiError> {
    if Delivered(w.reply).Some? then DecodeBody(parse, Delivered(w.reply).value)
    else if FallsBack(w) && policy.Some? && Hit(cache, policy.value.key, w.now2, w.read2).Some? then
      DecodeBody(parse, Hit(cache, policy.value.key, w.now2, w.read2).value.body)
    else if w.reply.NoReply? || BodyWithin(MAX_API_RESPONSE_BYTES, w.reply.declared, w.reply.chunks).Err? then Err(Network)
    else Err(Status(w.reply.status))
  }

  /** What the exchange leaves in the cache as it was when the exchange ended. */
  function Committed(cache: Cache, p: Policy, w: World): Cache {
    if Delivered(w.reply).Some? then Written(cache, p, Delivered(w.reply).value, w.now2, w.put)
    else if FallsBack(w) then Swept(cache, p.key, w.now2, w.read2)
    else cache
  }

  function Fetched<T>(parse: Bytes -> Option<T>, cache: Cache, policy: Option<Policy>, w: World): Result<T, ApiError> {
    var quick := FreshBody(Readable(parse), cache, policy, w);
    if quick.Some? then DecodeBody(parse, quick.value)
    else if !w.client then Err(Network)
    else ServerAnswer(parse, Looked(cache, policy, w), policy, w)
  }

  /** What a fetch leaves in the cache; of its decoder it depends on the readable bodies only. */
  function CacheAfter(readable: Bytes -> bool, cache: Cache, policy: Option<Policy>, w: World): Cache {
    var looked := Looked(cache, policy, w);
    if policy.None? || !Sends(readable, cache, policy, w) then looked else Committed(looked, policy.value, w)
  }

  // ---------------------------------------------------------------- over any interleaving of calls

  /**
    * A fetch looks into the cache under the key of the account it is made for, waits for the
    * server, and commits what came of it under that same key; meanwhile other fetches look and
    * commit, and accounts sign out. Each fetch has a decoder of its own, here known by the
    * bodies it can read.
    */
  datatype Step =
    | Look(f: nat, readable: Bytes -> bool, policy: Option<Policy>, world: World)
    | Commit(f: nat, world: World)
    | SignOut(keys: set<Key>)

  /** The cache, and the fetches waiting for the server. */
  datatype Shared = Shared(cache: Cache, waiting: map<nat, Option<Policy>>)

  function Next(s: Shared, step: Step): Shared {
    match step
    case SignOut(keys) => s.(cache := s.cache - keys)
    case Look(f, readable, policy, w) =>
      if f in s.waiting then s
      else Shared(Looked(s.cache, policy, w),
                  if Sends(readable, s.cache, policy, w) then s.waiting[f := policy] else s.waiting)
    case Commit(f, w) =>
      if f !in s.waiting then s
      else Shared(if s.waiting[f].Some? then Committed(s.cache, s.waiting[f].value, w) else s.cache, s.waiting - {f})
  }

  function After(steps: seq<Step>): Shared {
    if steps == [] then Shared(map[], map[]) else Next(After(steps[..|steps| - 1]), steps[|steps| - 1])
  }

  /** With nothing in between, a fetch does what the fetch in one piece does. */
  lemma UndisturbedFetch(steps: seq<Step>, f: nat, readable: Bytes -> bool, policy: Option<Policy>, w: World)
    requires f !in After(steps).waiting
    ensures After(steps + [Look(f, readable, policy, w), Commit(f, w)]) ==
            After(steps).(cache := CacheAfter(readable, After(steps).cache, policy, w))
  {
    var looked := steps + [Look(f, readable, policy, w)];
    var all := steps + [Look(f, readable, policy, w), Commit(f, w)];
    assert all[..|all| - 1] == looked && looked[..|looked| - 1] == steps;
    assert After(looked).waiting - {f} == After(steps).waiting;
  }

  /** A waiting fetch for `key`. */
  predicate WaitsFor(s: Shared, f: nat, key: Key) {
    f in s.waiting && s.waiting[f].Some? && s.waiting[f].value.key == key
  }

  /** Some fetch for `key` in the history got `body` in a successful answer. */
  ghost predicate WasDelivered(steps: seq<Step>, key: Key, body: Bytes) {
    exists i :: 0 <= i < |steps| && DeliveredBy(After(steps[..i]), steps[i], key, body)
  }

  predicate DeliveredBy(s: Shared, step: Step, key: Key, body: Bytes) {
    step.Commit? && WaitsFor(s, step.f, key) && Delivered(step.world.reply) == Some(body)
  }

  /** However calls interleave, the cache holds only bodies the server delivered for the same key. */
  lemma {:induction false} CachedWasDelivered(steps: seq<Step>, key: Key)
    requires key in After(steps).cache
    ensures WasDelivered(steps, key, After(steps).cache[key].body)
    ensures |After(steps).cache[key].body| <= MAX_ENTRY_BYTES
  {
    var front, last := steps[..|steps| - 1], steps[|steps| - 1];
    var before, after := After(front), After(steps);
    if key in before.cache && before.cache[key] == after.cache[key] {
      CachedWasDelivered(front, key);
      var i :| 0 <= i < |front| && DeliveredBy(After(front[..i]), front[i], key, after.cache[key].body);
      assert front[..i] == steps[..i];
      assert DeliveredBy(After(steps[..i]), steps[i], key, after.cache[key].body);
    } else {
      assert DeliveredBy(After(steps[..|steps| - 1]), steps[|steps| - 1], key, after.cache[key].body);
    }
  }

  /** What a fetch finds fresh when it looks was delivered by the server for the same key. */
  lemma FreshWasDelivered(steps: seq<Step>, readable: Bytes -> bool, policy: Option<Policy>, w: World)
    requires FreshBody(readable, After(steps).cache, policy, w).Some?
    ensures WasDelivered(steps, policy.value.key, FreshBody(readable, After(steps).cache, policy, w).value)
  {
    CachedWasDelivered(steps, policy.value.key);
  }

  /**
    * What a fetch answers when it commits decodes a body that a successful response delivered:
    * to itself, or to a fetch for the same key when the answer comes from the cache.
    */
  lemma AnswersWereDelivered<T>(steps: seq<Step>, parse: Bytes -> Option<T>, policy: Option<Policy>, w: World)
    requires ServerAnswer(parse, After(steps).cache, policy, w).Ok?
    ensures var v := ServerAnswer(parse, After(steps).cache, policy, w);
      || (Delivered(w.reply).Some? && v == DecodeBody(parse, Delivered(w.reply).value))
      || (policy.Some? && exists body :: WasDelivered(steps, policy.value.key, body) && v == DecodeBody(parse, body))
  {
    var cache := After(steps).cache;
    if policy.Some? && policy.value.key in cache {
      CachedWasDelivered(steps, policy.value.key);
      assert WasDelivered(steps, policy.value.key, cache[policy.value.key].body);
    }
  }

  // ---------------------------------------------------------------- signing out

  /** Nobody fetches for `key` any more: its account has signed out. */
  predicate NoLook(steps: seq<Step>, key: Key) {
    forall i :: 0 <= i < |steps| ==> steps[i].Look? && steps[i].policy.Some? ==> steps[i].policy.value.key != key
  }

  lemma {:induction false} NothingComesBack(steps: seq<Step>, later: seq<Step>, key: Key)
    requires key !in After(steps).cache && NoLook(later, key)
    requires forall f :: !WaitsFor(After(steps), f, key)
    ensures key !in After(steps + later).cache && forall f :: !WaitsFor(After(steps + later), f, key)
  {
    if later == [] {
      assert steps + later == steps;
    } else {
      var front := later[..|later| - 1];
      NothingComesBack(steps, front, key);
      assert (steps + later)[..|steps + later| - 1] == steps + front;
      StaysAway(After(steps + front), later[|later| - 1], key);
    }
  }

  lemma StaysAway(s: Shared, step: Step, key: Key)
    requires key !in s.cache && forall f :: !WaitsFor(s, f, key)
    requires step.Look? && step.policy.Some? ==> step.policy.value.key != key
    ensures key !in Next(s, step).cache && forall f :: !WaitsFor(Next(s, step), f, key)
  {
    if step.Commit? && step.f in s.waiting {
      assert !WaitsFor(s, step.f, key);
    }
    forall f
      ensures !WaitsFor(Next(s, step), f, key)
    {
      assert !WaitsFor(s, f, key);
    }
  }

  ghost predicate Outlives(steps: seq<Step>, keys: set<Key>, later: seq<Step>, key: Key) {
    NoLook(later, key) && key in After(steps + [SignOut(keys)] + later).cache
  }

  /**
    * Signing out removes the account's entries, and whether one can be there again afterwards,
    * with nobody signed in to it, is known at that moment: exactly if a fetch for it is waiting.
    */
  lemma OutlivesSignOutIff(steps: seq<Step>, keys: set<Key>, key: Key)
    requires key in keys
    ensures key !in After(steps + [SignOut(keys)]).cache
    ensures (exists later :: Outlives(steps, keys, later, key)) <==> (exists f :: WaitsFor(After(steps), f, key))
  {
    var out := steps + [SignOut(keys)];
    assert out[..|out| - 1] == steps;
    assert After(out).waiting == After(steps).waiting;
    if f :| WaitsFor(After(steps), f, key) {
      var w := World(true, true, 0, Reply(200, None, []), true, 0, PutOutcome.Stored({}));
      var later := [Commit(f, w)];
      BodyAcceptedIff(MAX_API_RESPONSE_BYTES, None, [], []);
      assert (out + later)[..|out + later| - 1] == out;
      assert Outlives(steps, keys, later, key);
    } else if later :| Outlives(steps, keys, later, key) {
      assert forall f :: WaitsFor(After(out), f, key) ==> WaitsFor(After(steps), f, key);
      NothingComesBack(out, later, key);
    }
  }

  // ---------------------------------------------------------------- one fetch

  /** Only a successful answer adds to the cache or changes an entry; others can only expire one. */
  lemma FailuresNeverWrite(readable: Bytes -> bool, cache: Cache, policy: Option<Policy>, w: World)
    requires Delivered(w.reply).None?
    ensures var after := CacheAfter(readable, cache, policy, w);
      && (forall k :: k in after ==> k in cache && after[k] == cache[k])
      && (forall k :: k in cache && k !in after ==>
            policy.Some? && k == policy.value.key && (w.now1 > cache[k].staleUntil || w.now2 > cache[k].staleUntil))
  {}

  /** A refusal always reaches the caller: below 500 no cached body stands in for it. */
  lemma RefusalsAreNotMasked<T>(parse: Bytes -> Option<T>, cache: Cache, policy: Option<Policy>, w: World)
    requires Sends(Readable(parse), cache, policy, w) && w.reply.Reply? && !Success(w.reply.status) && w.reply.status < 500
    ensures Fetched(parse, cache, policy, w) ==
      if BodyWithin(MAX_API_RESPONSE_BYTES, w.reply.declared, w.reply.chunks).Ok? then Err(Status(w.reply.status))
      else Err(Network)
  {}

  /**
    * A delivered body is what the cache holds next exactly when it was stored and not evicted,
    * or the cache was left alone and already held it. In particular a body over the entry
    * limit is not stored and does not displace the older one; a failed write may lose that.
    */
  lemma DeliveredIsCachedIff(readable: Bytes -> bool, cache: Cache, p: Policy, w: World)
    requires Sends(readable, cache, Some(p), w) && Delivered(w.reply).Some?
    ensures var body, after := Delivered(w.reply).value, CacheAfter(readable, cache, Some(p), w);
      (p.key in after && after[p.key].body == body) <==>
      if |body| <= MAX_ENTRY_BYTES && w.put.Stored? then p.key !in w.put.evicted
      else if |body| <= MAX_ENTRY_BYTES && w.put.olderLost then false
      else p.key in Looked(cache, Some(p), w) && cache[p.key].body == body
  {}

  /** One byte over the limit: the caller gets the new body and the cache keeps the old entry. */
  lemma OversizedBodyKeepsOlderEntry(older: Bytes) returns (cache: Cache, p: Policy, w: World, body: Bytes)
    requires |older| <= MAX_ENTRY_BYTES
    ensures |body| == 4_194_305 && Delivered(w.reply) == Some(body) && w.put.Stored?
    ensures cache == map[p.key := Entry(older, 10, 20)]
    ensures forall readable :: Sends(readable, cache, Some(p), w) && CacheAfter(readable, cache, Some(p), w) == cache
    ensures Fetched(b => Some(b), cache, Some(p), w) == Ok(body)
  {
    body := seq(MAX_ENTRY_BYTES + 1, _ => 0);
    var chunks := [Data(body)];
    p, cache := Policy(1, 10, 20), map[1 := Entry(older, 10, 20)];
    w := World(true, true, 15, Reply(200, None, chunks), true, 15, PutOutcome.Stored({}));
    assert chunks[1..] == [] && Concat(chunks) == body + [];
    BodyAcceptedIff(MAX_API_RESPONSE_BYTES, None, chunks, body);
  }

  // ---------------------------------------------------------------- how long an answer lasts

  /** The server answered with a success and a body that arrived whole and within the limits. */
  ghost predicate Delivers(reply: Reply, body: Bytes) {
    && reply.Reply? && 200 <= reply.status <= 299 && |body| <= MAX_ENTRY_BYTES
    && (reply.declared.Some? ==> reply.declared.value <= MAX_API_RESPONSE_BYTES)
    && Intact(reply.chunks) && Concat(reply.chunks) == body
  }

  /** The server is down: it does not answer, or answers in the 500s or above with a readable body. */
  ghost predicate IsDown(reply: Reply) {
    reply.NoReply? ||
    (reply.status >= 500 && (reply.declared.Some? ==> reply.declared.value <= MAX_API_RESPONSE_BYTES)
     && Intact(reply.chunks) && |Concat(reply.chunks)| <= MAX_API_RESPONSE_BYTES)
  }

  lemma DeliversIs(reply: Reply, body: Bytes)
    requires Delivers(reply, body)
    ensures Delivered(reply) == Some(body)
  {
    BodyAcceptedIff(MAX_API_RESPONSE_BYTES, reply.declared, reply.chunks, body);
  }

  lemma IsDownIs(w: World)
    requires IsDown(w.reply)
    ensures FallsBack(w) && Delivered(w.reply).None?
  {
    if w.reply.Reply? {
      BodyAcceptedIff(MAX_API_RESPONSE_BYTES, w.reply.declared, w.reply.chunks, Concat(w.reply.chunks));
    }
  }

  /** A fetch under `p` that gets `body` from the server and stores it at time `t`. */
  ghost predicate StoresAt(readable: Bytes -> bool, cache: Cache, p: Policy, w: World, body: Bytes, t: nat) {
    && Sends(readable, cache, Some(p), w) && Delivers(w.reply, body) && w.now2 == t
    && w.put.Stored? && p.key !in w.put.evicted
  }

  /**
    * A law over two fetches under one key, in times and policies only. The first stores a body
    * at `t`. Until `t + freshFor` the second is answered with it and nothing is sent, if it can
    * be decoded. After that the server is asked; while it is down the same body is the answer
    * until `t + staleFor`, and beyond that the answer is a network error and the entry is gone.
    */
  lemma AnswerLasts<T>(readable: Bytes -> bool, cache: Cache, p: Policy, w: World, body: Bytes, t: nat,
                       parse: Bytes -> Option<T>, p': Policy, w': World)
    requires StoresAt(readable, cache, p, w, body, t) && p'.key == p.key && w'.read1 && w'.read2 && w'.client
    ensures var cached, value := CacheAfter(readable, cache, Some(p), w), DecodeBody(parse, body);
      && (w'.now1 <= t + p.freshFor && w'.now1 <= t + p.staleFor && value.Ok? ==>
            !Sends(Readable(parse), cached, Some(p'), w') && Fetched(parse, cached, Some(p'), w') == value)
      && (t + p.freshFor < w'.now1 || value.Err? ==> Sends(Readable(parse), cached, Some(p'), w'))
      && (t + p.freshFor < w'.now1 <= w'.now2 <= t + p.staleFor && IsDown(w'.reply) ==>
            Fetched(parse, cached, Some(p'), w') == value
            && CacheAfter(Readable(parse), cached, Some(p'), w') == cached)
      && (t + p.freshFor < w'.now1 && t + p.staleFor < w'.now1 ==>
            && (w'.reply.NoReply? ==> Fetched(parse, cached, Some(p'), w') == Err(Network))
            && (IsDown(w'.reply) ==> p.key !in CacheAfter(Readable(parse), cached, Some(p'), w')))
  {
    DeliversIs(w.reply, body);
    var cached := CacheAfter(readable, cache, Some(p), w);
    assert cached[p.key] == Entry(body, t + p.freshFor, t + p.staleFor);
    if IsDown(w'.reply) {
      IsDownIs(w');
    }
  }

  /** The answer of an exchange, case by case, when no cached body stands in. */
  lemma AnswersByStatus<T>(parse: Bytes -> Option<T>, cache: Cache, w: World)
    ensures var r := ServerAnswer(parse, cache, None, w);
      && (w.reply.NoReply? ==> r == Err(Network))
      && (w.reply.Reply? ==>
            var whole := Intact(w.reply.chunks) && |Concat(w.reply.chunks)| <= MAX_API_RESPONSE_BYTES
                         && (w.reply.declared.Some? ==> w.reply.declared.value <= MAX_API_RESPONSE_BYTES);
            && (!whole ==> r == Err(Network))
            && (whole && 200 <= w.reply.status <= 299 ==> r == DecodeBody(parse, Concat(w.reply.chunks)))
            && (whole && !(200 <= w.reply.status <= 299) ==> r == Err(Status(w.reply.status))))
  {
    if w.reply.Reply? {
      BodyAcceptedIff(MAX_API_RESPONSE_BYTES, w.reply.declared, w.reply.chunks, Concat(w.reply.chunks));
      var body := BodyWithin(MAX_API_RESPONSE_BYTES, w.reply.declared, w.reply.chunks);
      if body.Ok? {
        BodyAcceptedIff(MAX_API_RESPONSE_BYTES, w.reply.declared, w.reply.chunks, body.value);
      }
    }
  }

  /** A cache that cannot be read gives the answers of none at all. */
  lemma UnreadableCacheIsNone<T>(parse: Bytes -> Option<T>, cache: Cache, policy: Option<Policy>, w: World)
    requires !w.read1 && !w.read2
    ensures Fetched(parse, cache, policy, w) == Fetched(parse, map[], None, w)
    ensures !w.client ==> Fetched(parse, cache, policy, w) == Err(Network)
    ensures Delivered(w.reply).None? ==> CacheAfter(Readable(parse), cache, policy, w) == cache
  {}

  /** An empty body reads as the text `null`; any other as what it is. */
  lemma EmptyReadsAsNull<T>(parse: Bytes -> Option<T>, body: Bytes)
    ensures DecodeBody(parse, []) == DecodeBody(parse, Utf8.Encode("null"))
    ensures body != [] ==>
      DecodeBody(parse, body) == match parse(body) case Some(value) => Ok(value) case None => Err(Decode)
  {
    Utf8.EncodeAscii('n', "ull");
    Utf8.EncodeAscii('u', "ll");
    Utf8.EncodeAscii('l', "l");
    Utf8.EncodeAscii('l', "");
    assert ['n'] + "ull" == "null" && ['u'] + "ll" == "ull" && ['l'] + "l" == "ll" && ['l'] + "" == "l";
    var jsonNull: Bytes := [0x6E, 0x75, 0x6C, 0x6C];
    assert Utf8.Encode("null") == jsonNull;
  }
}
