/**
 The fixed-window rate limiter of backend/app/middleware/rate_limiter.py: an in-memory
 table of (count, expires_at) pairs, and its Redis twin built from INCR and EXPIRE.

 The in-memory critical section contains no await, so one request is one atomic step.
 Time is a real number of seconds.
 */
module RateLimiting {
  import opened Basics
  import opened Options

  datatype Limit = Limit(maxRequests: int, windowSeconds: int)

  datatype Entry = Entry(count: int, expiresAt: real)

  type Table = map<string, Entry>

  /** A Redis counter; a key whose expiry has come is gone. */
  datatype RedisKey = RedisKey(count: int, expiry: Option<real>)

  type Store = map<string, RedisKey>

  /** Which Redis command of a request raises, if any: refused, it has had no effect on the server;
      unanswered, it has been carried out and only the reply is missing. */
  datatype Fault = NoFault | IncrRefused | IncrUnanswered | ExpireRefused | ExpireUnanswered

  datatype Backend = Disabled | Memory | Redis

  /** Whom a request is counted for: host and path of the request at hand, or else the user of the tenant. */
  datatype Caller = FromRequest(host: Option<string>, path: string) | FromTenant(user: Option<string>)

  datatype Verdict = Passed | TooMany(retryAfter: Option<int>)

  function Host(host: Option<string>): string {
    if host.Some? then host.value else "unknown"
  }

  function Subject(user: Option<string>): string {
    if user.Some? && user.value != "" then user.value else "anonymous"
  }

  function RateKey(prefix: string, c: Caller): string {
    match c
    case FromRequest(host, path) => "ratelimit:" + prefix + ":" + Host(host) + ":" + path
    case FromTenant(user) => "ratelimit:" + prefix + ":" + Subject(user) + ":" + prefix
  }

  /** `max(0, int(expires_at - now))` */
  function RetryAfter(expiresAt: real, now: real): int {
    if expiresAt <= now then 0 else (expiresAt - now).Floor
  }

  function Window(lim: Limit): real {
    lim.windowSeconds as real
  }

  // ---------------------------------------------------------------------------
  // One request
  // ---------------------------------------------------------------------------

  function Lookup(m: Table, key: string): Option<Entry> {
    if key in m then Some(m[key]) else None
  }

  function NextEntry(found: Option<Entry>, now: real, lim: Limit): Entry {
    var e := if found.Some? then found.value else Entry(0, now + Window(lim));
    var e' := if now >= e.expiresAt then Entry(0, now + Window(lim)) else e;
    e'.(count := e'.count + 1)
  }

  function Counted(m: Table, key: string, now: real, lim: Limit): Entry {
    NextEntry(Lookup(m, key), now, lim)
  }

  function MemoryHit(m: Table, key: string, now: real, lim: Limit): Table {
    m[key := Counted(m, key, now, lim)]
  }

  predicate MemoryAllows(m: Table, key: string, now: real, lim: Limit) {
    Counted(m, key, now, lim).count <= lim.maxRequests
  }

  function LiveKey(r: Store, key: string, now: real): Option<RedisKey> {
    if key in r && (r[key].expiry.None? || now < r[key].expiry.value) then Some(r[key]) else None
  }

  function Incremented(r: Store, key: string, now: real): RedisKey {
    match LiveKey(r, key, now)
    case Some(k) => k.(count := k.count + 1)
    case None => RedisKey(1, None)
  }

  /** EXPIRE deletes the key when the lifetime is not positive. */
  function Expired(r: Store, key: string, now: real, seconds: int): Store {
    if key !in r then r
    else if seconds <= 0 then map k | k in r && k != key :: r[k]
    else r[key := r[key].(expiry := Some(now + seconds as real))]
  }

  function RedisHit(r: Store, key: string, now: real, lim: Limit, fault: Fault): Store {
    if fault.IncrRefused? then r
    else
      var k := Incremented(r, key, now);
      var r' := r[key := k];
      if k.count == 1 && !fault.IncrUnanswered? && !fault.ExpireRefused?
      then Expired(r', key, now, lim.windowSeconds) else r'
  }

  /** A command raises; EXPIRE is only sent after a count of one. */
  predicate RedisRaises(r: Store, key: string, now: real, fault: Fault) {
    || fault.IncrRefused? || fault.IncrUnanswered?
    || (Incremented(r, key, now).count == 1 && (fault.ExpireRefused? || fault.ExpireUnanswered?))
  }

  /** Any exception of the backend lets the request pass. */
  predicate RedisAllows(r: Store, key: string, now: real, lim: Limit, fault: Fault) {
    RedisRaises(r, key, now, fault) || Incremented(r, key, now).count <= lim.maxRequests
  }

  /** The Redis server, with the two commands that the limiter sends. */
  class RedisStore {
    var keys: Store

    constructor ()
      ensures keys == map[]
    {
      keys := map[];
    }

    method Incr(key: string, now: real) returns (current: int)
      modifies this
      ensures keys == old(keys)[key := Incremented(old(keys), key, now)]
      ensures current == keys[key].count
    {
      if key in keys && (keys[key].expiry.None? || now < keys[key].expiry.value) {
        keys := keys[key := keys[key].(count := keys[key].count + 1)];
      } else {
        keys := keys[key := RedisKey(1, None)];
      }
      current := keys[key].count;
    }

    method Expire(key: string, seconds: int, now: real)
      modifies this
      ensures keys == Expired(old(keys), key, now, seconds)
    {
      if key in keys {
        if seconds <= 0 {
          keys := map k | k in keys && k != key :: keys[k];
        } else {
          keys := keys[key := keys[key].(expiry := Some(now + seconds as real))];
        }
      }
    }
  }

  class RateLimiter {
    const backend: Backend
    const redis: RedisStore
    var memory: Table

    constructor (backend: Backend, redis: RedisStore)
      ensures this.backend == backend && this.redis == redis && memory == map[]
    {
      this.backend := backend;
      this.redis := redis;
      memory := map[];
    }

    /** The body of the `limit` wrapper for one request, up to the call of the endpoint. `ttl` is the answer of
        Redis to TTL, None where it raises. */
    method Check(prefix: string, caller: Caller, now: real, lim: Limit, fault: Fault, ttl: Option<int>)
      returns (v: Verdict)
      modifies this, redis
      ensures backend.Disabled? ==> v.Passed? && memory == old(memory) && redis.keys == old(redis.keys)
      ensures backend.Memory? ==>
                var key := RateKey(prefix, caller);
                && memory == MemoryHit(old(memory), key, now, lim)
                && v == (if MemoryAllows(old(memory), key, now, lim) then Passed
                         else TooMany(Some(RetryAfter(memory[key].expiresAt, now))))
                && redis.keys == old(redis.keys)
      ensures backend.Redis? ==>
                var key := RateKey(prefix, caller);
                && redis.keys == RedisHit(old(redis.keys), key, now, lim, fault)
                && v == (if RedisAllows(old(redis.keys), key, now, lim, fault) then Passed
                         else TooMany(if ttl.Some? && ttl.value > 0 then ttl else None))
                && memory == old(memory)
    {
      if backend.Disabled? {
        return Passed;
      }
      var key := RateKey(prefix, caller);
      if backend.Redis? {
        if fault.IncrRefused? {
          return Passed;
        }
        var current := redis.Incr(key, now);
        if fault.IncrUnanswered? {
          return Passed;
        }
        if current == 1 {
          if fault.ExpireRefused? {
            return Passed;
          }
          redis.Expire(key, lim.windowSeconds, now);
          if fault.ExpireUnanswered? {
            return Passed;
          }
        }
        if current > lim.maxRequests {
          return TooMany(if ttl.Some? && ttl.value > 0 then ttl else None);
        }
        return Passed;
      }
      var count, expiresAt := 0, now + Window(lim);
      if key in memory {
        count, expiresAt := memory[key].count, memory[key].expiresAt;
      }
      if now >= expiresAt {
        count := 0;
        expiresAt := now + Window(lim);
      }
      count := count + 1;
      memory := memory[key := Entry(count, expiresAt)];
      if count > lim.maxRequests {
        return TooMany(Some(RetryAfter(expiresAt, now)));
      }
      return Passed;
    }
  }

  // ---------------------------------------------------------------------------
  // Keys and waiting times
  // ---------------------------------------------------------------------------

  /** The part of a key that depends on the caller. */
  function Tail(prefix: string, c: Caller): string {
    match c
    case FromRequest(host, path) => Host(host) + ":" + path
    case FromTenant(user) => Subject(user) + ":" + prefix
  }

  lemma KeyIsItsTail(prefix: string, a: Caller, b: Caller)
    ensures RateKey(prefix, a) == RateKey(prefix, b) <==> Tail(prefix, a) == Tail(prefix, b)
  {
    hide Host, Subject;
    var head := "ratelimit:" + prefix + ":";
    assert RateKey(prefix, a) == head + Tail(prefix, a) && RateKey(prefix, b) == head + Tail(prefix, b);
    assert (head + Tail(prefix, a))[|head|..] == Tail(prefix, a) && (head + Tail(prefix, b))[|head|..] == Tail(prefix, b);
  }

  lemma FirstSlashSplits(x: string, p: string, y: string, q: string)
    requires '/' !in x && '/' !in y && p != [] && q != [] && p[0] == '/' && q[0] == '/'
    requires x + ":" + p == y + ":" + q
    ensures x == y && p == q
  {
    var s := x + ":" + p;
    assert s[|x| + 1] == '/' && s[|y| + 1] == '/';
    assert forall i :: 0 <= i < |x| ==> s[i] == x[i] && s[i] in x;
    assert forall i :: 0 <= i < |y| ==> s[i] == y[i] && s[i] in y;
    assert s[|x|] == ':' && s[|y|] == ':';
    assert x == s[..|x|] && y == s[..|y|] && p == s[|x| + 1..] && q == s[|y| + 1..];
  }

  lemma RequestsShareAKey(prefix: string, host: Option<string>, path: string, other: Option<string>, otherPath: string)
    requires '/' !in Host(host) && '/' !in Host(other)
    requires path != [] && path[0] == '/' && otherPath != [] && otherPath[0] == '/'
    ensures RateKey(prefix, FromRequest(host, path)) == RateKey(prefix, FromRequest(other, otherPath)) <==>
            Host(host) == Host(other) && path == otherPath
  {
    hide Host, RateKey;
    KeyIsItsTail(prefix, FromRequest(host, path), FromRequest(other, otherPath));
    if Host(host) + ":" + path == Host(other) + ":" + otherPath {
      FirstSlashSplits(Host(host), path, Host(other), otherPath);
    }
  }

  lemma SameEnd(x: string, y: string, end: string)
    ensures x + end == y + end <==> x == y
  {
    assert x == (x + end)[..|x + end| - |end|] && y == (y + end)[..|y + end| - |end|];
  }

  lemma TenantsShareAKey(prefix: string, user: Option<string>, other: Option<string>)
    ensures RateKey(prefix, FromTenant(user)) == RateKey(prefix, FromTenant(other)) <==> Subject(user) == Subject(other)
  {
    hide Subject, RateKey;
    KeyIsItsTail(prefix, FromTenant(user), FromTenant(other));
    SameEnd(Subject(user), Subject(other), ":" + prefix);
    assert Subject(user) + ":" + prefix == Subject(user) + (":" + prefix);
    assert Subject(other) + ":" + prefix == Subject(other) + (":" + prefix);
  }

  /** Under one decorator two requests share a limit exactly when host and path are the same, if paths start with a
      slash and hosts hold none, and two tenants exactly when they are one subject. */
  lemma CallersShareALimitExactlyWhen(prefix: string, a: Caller, b: Caller)
    requires a.FromRequest? && b.FromRequest? ==>
               && '/' !in Host(a.host) && '/' !in Host(b.host)
               && a.path != [] && a.path[0] == '/' && b.path != [] && b.path[0] == '/'
    ensures a.FromRequest? && b.FromRequest? ==>
              (RateKey(prefix, a) == RateKey(prefix, b) <==> Host(a.host) == Host(b.host) && a.path == b.path)
    ensures a.FromTenant? && b.FromTenant? ==>
              (RateKey(prefix, a) == RateKey(prefix, b) <==> Subject(a.user) == Subject(b.user))
  {
    hide Host, Subject, RateKey;
    if a.FromRequest? && b.FromRequest? {
      RequestsShareAKey(prefix, a.host, a.path, b.host, b.path);
    } else if a.FromTenant? && b.FromTenant? {
      TenantsShareAKey(prefix, a.user, b.user);
    }
  }

  /** A rejected caller that waits a second longer than it is told finds a new window; the time told is never more
      than the window. */
  lemma WaitingStartsANewWindow(m: Table, key: string, now: real, lim: Limit, later: real)
    requires lim.windowSeconds > 0 && !MemoryAllows(m, key, now, lim)
    requires key in m ==> m[key].expiresAt <= now + Window(lim)
    requires later >= now + RetryAfter(Counted(m, key, now, lim).expiresAt, now) as real + 1.0
    ensures 0 <= RetryAfter(Counted(m, key, now, lim).expiresAt, now) <= lim.windowSeconds
    ensures Counted(MemoryHit(m, key, now, lim), key, later, lim) == Entry(1, later + Window(lim))
  {
  }

  // ---------------------------------------------------------------------------
  // Runs
  // ---------------------------------------------------------------------------

  datatype Arrival = Arrival(key: string, now: real, lim: Limit)

  ghost predicate InClockOrder(arr: seq<Arrival>) {
    forall i, j :: 0 <= i < j < |arr| ==> arr[i].now <= arr[j].now
  }

  function TableAfter(arr: seq<Arrival>): Table {
    if arr == [] then map[]
    else
      var a := arr[|arr| - 1];
      MemoryHit(TableAfter(arr[..|arr| - 1]), a.key, a.now, a.lim)
  }

  function StoreAfter(arr: seq<Arrival>): Store {
    if arr == [] then map[]
    else
      var a := arr[|arr| - 1];
      RedisHit(StoreAfter(arr[..|arr| - 1]), a.key, a.now, a.lim, NoFault)
  }

  /** The answers of the in-memory limiter, in order. */
  function MemoryAnswers(arr: seq<Arrival>): seq<bool> {
    if arr == [] then []
    else
      var a, init := arr[|arr| - 1], arr[..|arr| - 1];
      MemoryAnswers(init) + [MemoryAllows(TableAfter(init), a.key, a.now, a.lim)]
  }

  function RedisAnswers(arr: seq<Arrival>): seq<bool> {
    if arr == [] then []
    else
      var a, init := arr[|arr| - 1], arr[..|arr| - 1];
      RedisAnswers(init) + [RedisAllows(StoreAfter(init), a.key, a.now, a.lim, NoFault)]
  }

  function ForKey(arr: seq<Arrival>, key: string): seq<Arrival> {
    if arr == [] then []
    else
      var a, init := arr[|arr| - 1], arr[..|arr| - 1];
      if a.key == key then ForKey(init, key) + [a] else ForKey(init, key)
  }

  /** What the table knows about a key depends on the arrivals for that key alone. */
  lemma {:induction false} KeysAreIndependent(arr: seq<Arrival>, key: string)
    ensures Lookup(TableAfter(arr), key) == Lookup(TableAfter(ForKey(arr, key)), key)
  {
    if arr != [] {
      var a, init := arr[|arr| - 1], arr[..|arr| - 1];
      KeysAreIndependent(init, key);
      if a.key == key {
        assert ForKey(arr, key)[..|ForKey(arr, key)| - 1] == ForKey(init, key);
      }
    }
  }

  // ---------------------------------------------------------------------------
  // The two backends agree
  // ---------------------------------------------------------------------------

  function LiveEntry(m: Table, key: string, now: real): Option<RedisKey> {
    if key in m && now < m[key].expiresAt then Some(RedisKey(m[key].count, Some(m[key].expiresAt))) else None
  }

  /** From time `now` on, a lapsed table entry and an absent Redis key look the same. */
  ghost predicate Alike(m: Table, r: Store, now: real) {
    forall key :: LiveEntry(m, key, now) == LiveKey(r, key, now)
  }

  lemma AlikeLater(m: Table, r: Store, now: real, later: real)
    requires Alike(m, r, now) && now <= later
    ensures Alike(m, r, later)
  {
    forall key ensures LiveEntry(m, key, later) == LiveKey(r, key, later) {
      assert LiveEntry(m, key, now) == LiveKey(r, key, now);
    }
  }

  lemma AlikeStep(m: Table, r: Store, a: Arrival)
    requires Alike(m, r, a.now)
    requires forall k :: k in m ==> m[k].count >= 1
    ensures MemoryAllows(m, a.key, a.now, a.lim) == RedisAllows(r, a.key, a.now, a.lim, NoFault)
    ensures Alike(MemoryHit(m, a.key, a.now, a.lim), RedisHit(r, a.key, a.now, a.lim, NoFault), a.now)
  {
    var m', r' := MemoryHit(m, a.key, a.now, a.lim), RedisHit(r, a.key, a.now, a.lim, NoFault);
    assert LiveEntry(m, a.key, a.now) == LiveKey(r, a.key, a.now);
    forall key ensures LiveEntry(m', key, a.now) == LiveKey(r', key, a.now) {
      assert LiveEntry(m, key, a.now) == LiveKey(r, key, a.now);
    }
  }

  lemma {:induction false} TwinStates(arr: seq<Arrival>)
    requires InClockOrder(arr)
    ensures MemoryAnswers(arr) == RedisAnswers(arr)
    ensures arr != [] ==> Alike(TableAfter(arr), StoreAfter(arr), arr[|arr| - 1].now)
    ensures forall k :: k in TableAfter(arr) ==> TableAfter(arr)[k].count >= 1
  {
    if arr != [] {
      var n := |arr| - 1;
      var init := arr[..n];
      TwinStates(init);
      if n > 0 {
        AlikeLater(TableAfter(init), StoreAfter(init), init[n - 1].now, arr[n].now);
      }
      AlikeStep(TableAfter(init), StoreAfter(init), arr[n]);
    }
  }

  /** On every arrival sequence, whatever its keys and limits, both backends give the same answers. */
  lemma BackendsAgree(arr: seq<Arrival>)
    requires InClockOrder(arr)
    ensures MemoryAnswers(arr) == RedisAnswers(arr)
  {
    TwinStates(arr);
  }

  // ---------------------------------------------------------------------------
  // Runs in which Redis commands fail
  // ---------------------------------------------------------------------------

  datatype Request = Request(arrival: Arrival, fault: Fault)

  function AfterCommands(r: Store, q: Request): Store {
    RedisHit(r, q.arrival.key, q.arrival.now, q.arrival.lim, q.fault)
  }

  predicate Answer(r: Store, q: Request) {
    RedisAllows(r, q.arrival.key, q.arrival.now, q.arrival.lim, q.fault)
  }

  predicate Raises(r: Store, q: Request) {
    RedisRaises(r, q.arrival.key, q.arrival.now, q.fault)
  }

  function StoreFrom(r: Store, reqs: seq<Request>): Store {
    if reqs == [] then r else AfterCommands(StoreFrom(r, reqs[..|reqs| - 1]), reqs[|reqs| - 1])
  }

  /** The request starts the window of its key, and EXPIRE is refused, or never sent because INCR has gone unanswered. */
  predicate LosesExpiry(r: Store, q: Request) {
    LiveKey(r, q.arrival.key, q.arrival.now).None? && (q.fault.IncrUnanswered? || q.fault.ExpireRefused?)
  }

  ghost predicate NothingLost(reqs: seq<Request>) {
    forall i :: 0 <= i < |reqs| ==> !LosesExpiry(StoreFrom(map[], reqs[..i]), reqs[i])
  }

  ghost predicate AllExpire(r: Store) {
    forall k :: k in r ==> r[k].expiry.Some?
  }

  ghost predicate Positive(r: Store) {
    forall k :: k in r ==> r[k].count >= 1
  }

  lemma StepKeepsPositive(r: Store, q: Request)
    requires Positive(r)
    ensures Positive(AfterCommands(r, q))
    ensures AllExpire(AfterCommands(r, q)) <==> AllExpire(r) && !LosesExpiry(r, q)
  {
    var key, r' := q.arrival.key, AfterCommands(r, q);
    assert forall k :: k != key ==> (k in r' <==> k in r) && (k in r ==> r'[k] == r[k]);
    if LosesExpiry(r, q) {
      assert key in r' && r'[key].expiry.None?;
    }
    if k :| k in r && r[k].expiry.None? {
      assert k in r' && r'[k].expiry.None?;
    }
  }

  lemma NothingLostBefore(reqs: seq<Request>)
    requires reqs != []
    ensures var n := |reqs| - 1;
            NothingLost(reqs) <==> NothingLost(reqs[..n]) && !LosesExpiry(StoreFrom(map[], reqs[..n]), reqs[n])
  {
    var n := |reqs| - 1;
    hide LosesExpiry, StoreFrom;
    forall i | 0 <= i < n
      ensures LosesExpiry(StoreFrom(map[], reqs[..n][..i]), reqs[..n][i]) <==>
              LosesExpiry(StoreFrom(map[], reqs[..i]), reqs[i])
    {
      assert reqs[..n][..i] == reqs[..i];
    }
  }

  /** Every stored key is due to be released exactly when no request has lost the expiry of a window that it
      started, whatever else has failed and whatever the clock, the keys and the limits. */
  lemma {:induction false} KeysExpireExactlyWhenNothingLost(reqs: seq<Request>)
    ensures Positive(StoreFrom(map[], reqs))
    ensures AllExpire(StoreFrom(map[], reqs)) <==> NothingLost(reqs)
  {
    hide AllExpire, Positive, LosesExpiry, AfterCommands, NothingLost;
    if reqs == [] {
      EmptyRun();
    } else {
      var n := |reqs| - 1;
      KeysExpireExactlyWhenNothingLost(reqs[..n]);
      StepKeepsPositive(StoreFrom(map[], reqs[..n]), reqs[n]);
      NothingLostBefore(reqs);
    }
  }

  lemma EmptyRun()
    ensures Positive(map[]) && AllExpire(map[]) && NothingLost([])
  {
  }

  /** The arrivals that Redis has counted. */
  function Reached(reqs: seq<Request>): seq<Arrival> {
    if reqs == [] then []
    else
      var q, before := reqs[|reqs| - 1], Reached(reqs[..|reqs| - 1]);
      if q.fault.IncrRefused? then before else before + [q.arrival]
  }

  /** Their answers. */
  function ReachedAnswers(reqs: seq<Request>): seq<bool> {
    if reqs == [] then []
    else
      var n := |reqs| - 1;
      if reqs[n].fault.IncrRefused? then ReachedAnswers(reqs[..n])
      else ReachedAnswers(reqs[..n]) + [Answer(StoreFrom(map[], reqs[..n]), reqs[n])]
  }

  /** For which of them a command raised. */
  function ReachedRaises(reqs: seq<Request>): seq<bool> {
    if reqs == [] then []
    else
      var n := |reqs| - 1;
      if reqs[n].fault.IncrRefused? then ReachedRaises(reqs[..n])
      else ReachedRaises(reqs[..n]) + [Raises(StoreFrom(map[], reqs[..n]), reqs[n])]
  }

  /** A command that raises without losing an expiry leaves in the store what it leaves there without raising. */
  lemma HarmlessFault(r: Store, q: Request)
    requires Positive(r) && !q.fault.IncrRefused? && !LosesExpiry(r, q)
    ensures AfterCommands(r, q) == AfterCommands(r, q.(fault := NoFault))
    ensures Answer(r, q) == (Raises(r, q) || Answer(r, q.(fault := NoFault)))
  {
  }

  ghost predicate PassIfRaised(answers: seq<bool>, raised: seq<bool>, expected: seq<bool>) {
    |answers| == |raised| == |expected| && forall i :: 0 <= i < |answers| ==> answers[i] == (raised[i] || expected[i])
  }

  /** While no expiry is lost, Redis with failing commands stores what it counts as without failures; it answers
      that as without failures, and so like the in-memory table, but lets pass those for which a command raised.
      What it does not count passes too and leaves no trace. */
  lemma {:induction false} HarmlessRunsAgree(reqs: seq<Request>)
    requires NothingLost(reqs)
    ensures StoreFrom(map[], reqs) == StoreAfter(Reached(reqs))
    ensures PassIfRaised(ReachedAnswers(reqs), ReachedRaises(reqs), RedisAnswers(Reached(reqs)))
    ensures forall r, q: Request :: q.fault.IncrRefused? ==> Answer(r, q) && AfterCommands(r, q) == r
    ensures InClockOrder(Reached(reqs)) ==>
              PassIfRaised(ReachedAnswers(reqs), ReachedRaises(reqs), MemoryAnswers(Reached(reqs)))
  {
    if reqs != [] {
      var n := |reqs| - 1;
      var init, q, r := reqs[..n], reqs[n], StoreFrom(map[], reqs[..n]);
      NothingLostBefore(reqs);
      HarmlessRunsAgree(init);
      if !q.fault.IncrRefused? {
        KeysExpireExactlyWhenNothingLost(init);
        HarmlessFault(r, q);
        assert Reached(reqs)[..|Reached(reqs)| - 1] == Reached(init);
      }
    }
    if InClockOrder(Reached(reqs)) {
      BackendsAgree(Reached(reqs));
    }
  }

  /** The requests for a key that Redis has counted. */
  function CountedFor(reqs: seq<Request>, key: string): nat {
    if reqs == [] then 0
    else
      var q := reqs[|reqs| - 1];
      CountedFor(reqs[..|reqs| - 1], key) + if q.arrival.key == key && !q.fault.IncrRefused? then 1 else 0
  }

  /** A request that loses the expiry passes, but the key never lapses: after any
      further requests, whatever the clock and their faults, one passes only if `max_requests` have not been
      counted in all. */
  lemma {:induction false} LostExpiryCountsForever(r: Store, q: Request, later: seq<Request>)
    requires LosesExpiry(r, q)
    ensures Answer(r, q)
    ensures var r', key := StoreFrom(AfterCommands(r, q), later), q.arrival.key;
            && key in r' && r'[key] == RedisKey(1 + CountedFor(later, key), None)
            && forall now, lim :: RedisAllows(r', key, now, lim, NoFault) <==> 2 + CountedFor(later, key) <= lim.maxRequests
  {
    if later != [] {
      LostExpiryCountsForever(r, q, later[..|later| - 1]);
    }
  }

  // ---------------------------------------------------------------------------
  // How many requests get through
  // ---------------------------------------------------------------------------

  /** An admitted request, with the expiry of the window it was counted in. */
  datatype Admission = Admission(time: real, expiresAt: real)

  function Admitted(arr: seq<Arrival>, key: string): seq<Admission> {
    if arr == [] then []
    else
      var a, init := arr[|arr| - 1], arr[..|arr| - 1];
      if a.key == key && MemoryAllows(TableAfter(init), key, a.now, a.lim)
      then Admitted(init, key) + [Admission(a.now, Counted(TableAfter(init), key, a.now, a.lim).expiresAt)]
      else Admitted(init, key)
  }

  function CountInWindow(log: seq<Admission>, expiresAt: real): nat {
    if log == [] then 0
    else CountInWindow(log[..|log| - 1], expiresAt) + if log[|log| - 1].expiresAt == expiresAt then 1 else 0
  }

  /** Admissions at a time in the closed interval [from, to]. */
  function AdmittedWithin(log: seq<Admission>, from: real, to: real): nat {
    if log == [] then 0
    else AdmittedWithin(log[..|log| - 1], from, to) + if from <= log[|log| - 1].time <= to then 1 else 0
  }

  /** One key is always used with the same limit. */
  ghost predicate Uniform(arr: seq<Arrival>, key: string, lim: Limit) {
    forall i :: 0 <= i < |arr| && arr[i].key == key ==> arr[i].lim == lim
  }

  function AtLeastZero(n: int): nat {
    if n < 0 then 0 else n
  }

  /** Every admission lies in its window, and windows do not overlap. */
  ghost predicate Separated(log: seq<Admission>, lim: Limit) {
    && (forall i :: 0 <= i < |log| ==> log[i].expiresAt - Window(lim) <= log[i].time < log[i].expiresAt)
    && (forall i, j :: 0 <= i < j < |log| && log[i].expiresAt != log[j].expiresAt ==>
          log[j].expiresAt - log[i].expiresAt >= Window(lim))
  }

  ghost predicate NoWindowOverfull(log: seq<Admission>, lim: Limit) {
    forall x :: CountInWindow(log, x) <= AtLeastZero(lim.maxRequests)
  }

  /** The entry's window is the latest one and has begun. */
  ghost predicate IsLatest(e: Entry, log: seq<Admission>, lim: Limit, now: real) {
    && e.expiresAt - Window(lim) <= now
    && forall i :: 0 <= i < |log| ==>
         && log[i].time <= now
         && (log[i].expiresAt == e.expiresAt || e.expiresAt - log[i].expiresAt >= Window(lim))
  }

  /** The entry counts every request of its window, the admissions being the first `max_requests`. */
  ghost predicate CountsUp(e: Entry, log: seq<Admission>, lim: Limit) {
    e.count >= 1 && CountInWindow(log, e.expiresAt) == Min(e.count, AtLeastZero(lim.maxRequests))
  }

  function AfterRequest(found: Option<Entry>, log: seq<Admission>, now: real, lim: Limit): seq<Admission> {
    var e := NextEntry(found, now, lim);
    if e.count <= lim.maxRequests then log + [Admission(now, e.expiresAt)] else log
  }

  lemma {:induction false} AbsentWindow(log: seq<Admission>, x: real)
    requires forall i :: 0 <= i < |log| ==> log[i].expiresAt != x
    ensures CountInWindow(log, x) == 0
  {
    if log != [] {
      AbsentWindow(log[..|log| - 1], x);
    }
  }

  lemma OneMoreAdmission(log: seq<Admission>, a: Admission, x: real)
    ensures CountInWindow(log + [a], x) == CountInWindow(log, x) + if a.expiresAt == x then 1 else 0
  {
    assert (log + [a])[..|log|] == log;
  }

  lemma RequestKeepsSeparation(found: Option<Entry>, log: seq<Admission>, lim: Limit, now: real)
    requires lim.windowSeconds > 0 && Separated(log, lim)
    requires if found.Some? then IsLatest(found.value, log, lim, now) else log == []
    ensures Separated(AfterRequest(found, log, now, lim), lim)
    ensures IsLatest(NextEntry(found, now, lim), AfterRequest(found, log, now, lim), lim, now)
  {
  }

  lemma RequestKeepsCounts(found: Option<Entry>, log: seq<Admission>, lim: Limit, now: real)
    requires lim.windowSeconds > 0 && NoWindowOverfull(log, lim)
    requires if found.Some? then IsLatest(found.value, log, lim, now) && CountsUp(found.value, log, lim) else log == []
    ensures NoWindowOverfull(AfterRequest(found, log, now, lim), lim)
    ensures CountsUp(NextEntry(found, now, lim), AfterRequest(found, log, now, lim), lim)
  {
    var e := NextEntry(found, now, lim);
    if found.None? || now >= found.value.expiresAt {
      AbsentWindow(log, e.expiresAt);
    }
    var log' := AfterRequest(found, log, now, lim);
    forall x ensures CountInWindow(log', x) <= AtLeastZero(lim.maxRequests) {
      OneMoreAdmission(log, Admission(now, e.expiresAt), x);
    }
    OneMoreAdmission(log, Admission(now, e.expiresAt), e.expiresAt);
  }

  ghost predicate Summed(found: Option<Entry>, log: seq<Admission>, lim: Limit, now: real) {
    && Separated(log, lim)
    && NoWindowOverfull(log, lim)
    && if found.Some? then IsLatest(found.value, log, lim, now) && CountsUp(found.value, log, lim) else log == []
  }

  lemma NothingSummed(lim: Limit, now: real)
    ensures Summed(None, [], lim, now)
  {
  }

  lemma SummedLater(found: Option<Entry>, log: seq<Admission>, lim: Limit, now: real, later: real)
    requires Summed(found, log, lim, now) && now <= later
    ensures Summed(found, log, lim, later)
  {
    hide Separated, NoWindowOverfull, CountsUp;
  }

  lemma SummedStep(found: Option<Entry>, log: seq<Admission>, lim: Limit, now: real)
    requires Summed(found, log, lim, now) && lim.windowSeconds > 0
    ensures Summed(Some(NextEntry(found, now, lim)), AfterRequest(found, log, now, lim), lim, now)
  {
    hide NextEntry, AfterRequest, Separated, NoWindowOverfull, IsLatest, CountsUp;
    RequestKeepsSeparation(found, log, lim, now);
    RequestKeepsCounts(found, log, lim, now);
  }

  lemma SummedArrival(init: seq<Arrival>, a: Arrival, key: string, lim: Limit)
    requires Summed(Lookup(TableAfter(init), key), Admitted(init, key), lim, a.now)
    requires (a.key == key ==> a.lim == lim) && lim.windowSeconds > 0
    ensures Summed(Lookup(TableAfter(init + [a]), key), Admitted(init + [a], key), lim, a.now)
  {
    hide *;
    if a.key == key {
      ArrivalUnfolds(init, a);
      SummedStep(Lookup(TableAfter(init), key), Admitted(init, key), lim, a.now);
    } else {
      OtherArrival(init, a, key);
    }
  }

  lemma {:induction false} RunsKeepWindows(arr: seq<Arrival>, key: string, lim: Limit, now: real)
    requires InClockOrder(arr) && Uniform(arr, key, lim) && lim.windowSeconds > 0
    requires arr != [] ==> arr[|arr| - 1].now <= now
    ensures Summed(Lookup(TableAfter(arr), key), Admitted(arr, key), lim, now)
  {
    if arr == [] {
      hide Summed;
      NothingSummed(lim, now);
    } else {
      hide Summed, TableAfter, Admitted;
      var a, init := arr[|arr| - 1], arr[..|arr| - 1];
      RunsKeepWindows(init, key, lim, a.now);
      assert arr == init + [a];
      SummedArrival(init, a, key, lim);
      SummedLater(Lookup(TableAfter(arr), key), Admitted(arr, key), lim, a.now, now);
    }
  }

  /** Admissions of three different windows do not fit in a closed interval of one window length. */
  lemma ThirdWindowIsOutside(log: seq<Admission>, lim: Limit, from: real, i: int, j: int, k: int)
    requires Separated(log, lim) && lim.windowSeconds > 0
    requires 0 <= i < |log| && 0 <= j < |log| && 0 <= k < |log|
    requires from <= log[i].time && log[i].expiresAt < log[j].expiresAt < log[k].expiresAt
    ensures log[k].time > from + Window(lim)
  {
    assert i < j < k;
  }

  ghost predicate OnlyWindows(log: seq<Admission>, from: real, to: real, x: real, y: real) {
    forall i :: 0 <= i < |log| && from <= log[i].time <= to ==> log[i].expiresAt == x || log[i].expiresAt == y
  }

  lemma TwoWindowsCover(log: seq<Admission>, lim: Limit, from: real) returns (x: real, y: real)
    requires Separated(log, lim) && lim.windowSeconds > 0
    ensures OnlyWindows(log, from, from + Window(lim), x, y)
  {
    var to := from + Window(lim);
    x, y := 0.0, 0.0;
    if i :| 0 <= i < |log| && from <= log[i].time <= to {
      x, y := log[i].expiresAt, log[i].expiresAt;
      if j :| 0 <= j < |log| && from <= log[j].time <= to && log[j].expiresAt != x {
        y := log[j].expiresAt;
        forall k | 0 <= k < |log| && from <= log[k].time <= to
          ensures log[k].expiresAt == x || log[k].expiresAt == y
        {
          if log[k].expiresAt != x && log[k].expiresAt != y {
            var lo, mid, hi := InOrder(log, i, j, k);
            ThirdWindowIsOutside(log, lim, from, lo, mid, hi);
          }
        }
      }
    }
  }

  lemma InOrder(log: seq<Admission>, i: int, j: int, k: int) returns (lo: int, mid: int, hi: int)
    requires 0 <= i < |log| && 0 <= j < |log| && 0 <= k < |log|
    requires log[i].expiresAt != log[j].expiresAt && log[j].expiresAt != log[k].expiresAt
    requires log[i].expiresAt != log[k].expiresAt
    ensures {lo, mid, hi} == {i, j, k}
    ensures 0 <= lo < |log| && 0 <= mid < |log| && 0 <= hi < |log|
    ensures log[lo].expiresAt < log[mid].expiresAt < log[hi].expiresAt
  {
    lo, mid, hi := i, j, k;
    if log[lo].expiresAt > log[mid].expiresAt {
      lo, mid := mid, lo;
    }
    if log[mid].expiresAt > log[hi].expiresAt {
      mid, hi := hi, mid;
    }
    if log[lo].expiresAt > log[mid].expiresAt {
      lo, mid := mid, lo;
    }
  }

  lemma {:induction false} CountByWindow(log: seq<Admission>, from: real, to: real, x: real, y: real)
    requires OnlyWindows(log, from, to, x, y)
    ensures AdmittedWithin(log, from, to) <= CountInWindow(log, x) + CountInWindow(log, y)
  {
    if log != [] {
      CountByWindow(log[..|log| - 1], from, to, x, y);
    }
  }

  /** A window never admits more than `max_requests` requests. */
  lemma AtMostMaxPerWindow(arr: seq<Arrival>, key: string, lim: Limit, expiresAt: real)
    requires InClockOrder(arr) && Uniform(arr, key, lim) && lim.windowSeconds > 0
    ensures CountInWindow(Admitted(arr, key), expiresAt) <= AtLeastZero(lim.maxRequests)
  {
    hide Admitted, TableAfter, CountInWindow, Separated, IsLatest, CountsUp;
    RunsKeepWindows(arr, key, lim, if arr == [] then 0.0 else arr[|arr| - 1].now);
  }

  /** However a closed interval of one window length falls across the windows, it contains at most
      twice `max_requests` admissions. */
  lemma AtMostTwiceMaxPerInterval(arr: seq<Arrival>, key: string, lim: Limit, from: real)
    requires InClockOrder(arr) && Uniform(arr, key, lim) && lim.windowSeconds > 0
    ensures AdmittedWithin(Admitted(arr, key), from, from + Window(lim)) <= 2 * AtLeastZero(lim.maxRequests)
  {
    hide Admitted, TableAfter, AdmittedWithin, CountInWindow, Separated, IsLatest, CountsUp, OnlyWindows;
    hide AtLeastZero, Lookup;
    RunsKeepWindows(arr, key, lim, if arr == [] then 0.0 else arr[|arr| - 1].now);
    var log := Admitted(arr, key);
    var x, y := TwoWindowsCover(log, lim, from);
    CountByWindow(log, from, from + Window(lim), x, y);
    AtMostMaxPerWindow(arr, key, lim, x);
    AtMostMaxPerWindow(arr, key, lim, y);
  }

  /** A request is turned away only after `max_requests` admissions in the window length before it. */
  lemma RejectionIsEarned(arr: seq<Arrival>, a: Arrival)
    requires InClockOrder(arr + [a]) && Uniform(arr, a.key, a.lim) && a.lim.windowSeconds > 0
    requires !MemoryAllows(TableAfter(arr), a.key, a.now, a.lim)
    ensures AdmittedWithin(Admitted(arr, a.key), a.now - Window(a.lim), a.now) >= AtLeastZero(a.lim.maxRequests)
  {
    hide Admitted, TableAfter, AdmittedWithin, CountInWindow;
    assert forall i :: 0 <= i < |arr| ==> arr[i] == (arr + [a])[i];
    assert (arr + [a])[|arr|] == a;
    RunsKeepWindows(arr, a.key, a.lim, a.now);
    if a.lim.maxRequests > 0 {
      var e := TableAfter(arr)[a.key];
      WindowInside(Admitted(arr, a.key), e.expiresAt, a.now - Window(a.lim), a.now);
    }
  }

  lemma {:induction false} WindowInside(log: seq<Admission>, x: real, from: real, to: real)
    requires forall i :: 0 <= i < |log| && log[i].expiresAt == x ==> from <= log[i].time <= to
    ensures AdmittedWithin(log, from, to) >= CountInWindow(log, x)
  {
    if log != [] {
      WindowInside(log[..|log| - 1], x, from, to);
    }
  }

  // ---------------------------------------------------------------------------
  // The bound of twice `max_requests` is reached
  // ---------------------------------------------------------------------------

  function Burst(key: string, lim: Limit, now: real, n: nat): (r: seq<Arrival>)
    ensures |r| == n && forall i :: 0 <= i < n ==> r[i] == Arrival(key, now, lim)
  {
    seq(n, _ => Arrival(key, now, lim))
  }

  lemma {:induction false} BurstIsAdmitted(arr: seq<Arrival>, key: string, lim: Limit, now: real, n: nat,
                                           from: real, to: real)
    requires n <= lim.maxRequests && lim.windowSeconds > 0 && from <= now <= to
    requires key in TableAfter(arr) ==> now >= TableAfter(arr)[key].expiresAt
    ensures var arr' := arr + Burst(key, lim, now, n);
            && AdmittedWithin(Admitted(arr', key), from, to) == AdmittedWithin(Admitted(arr, key), from, to) + n
            && (n > 0 ==> Lookup(TableAfter(arr'), key) == Some(Entry(n, now + Window(lim))))
  {
    hide Admitted, AdmittedWithin, TableAfter;
    if n == 0 {
      assert arr + Burst(key, lim, now, 0) == arr;
    } else {
      BurstIsAdmitted(arr, key, lim, now, n - 1, from, to);
      var prev, arr' := arr + Burst(key, lim, now, n - 1), arr + Burst(key, lim, now, n);
      if n == 1 {
        assert prev == arr;
      }
      assert arr' == prev + [Arrival(key, now, lim)];
      OneMoreArrival(prev, Arrival(key, now, lim), n - 1, from, to);
    }
  }

  lemma OtherArrival(arr: seq<Arrival>, a: Arrival, key: string)
    requires a.key != key
    ensures Lookup(TableAfter(arr + [a]), key) == Lookup(TableAfter(arr), key)
    ensures Admitted(arr + [a], key) == Admitted(arr, key)
  {
    hide NextEntry;
    assert (arr + [a])[..|arr|] == arr;
  }

  lemma ArrivalUnfolds(arr: seq<Arrival>, a: Arrival)
    ensures TableAfter(arr + [a]) == MemoryHit(TableAfter(arr), a.key, a.now, a.lim)
    ensures Lookup(TableAfter(arr + [a]), a.key) == Some(NextEntry(Lookup(TableAfter(arr), a.key), a.now, a.lim))
    ensures Admitted(arr + [a], a.key) ==
            AfterRequest(Lookup(TableAfter(arr), a.key), Admitted(arr, a.key), a.now, a.lim)
  {
    hide NextEntry;
    assert (arr + [a])[..|arr|] == arr;
  }

  lemma OneMoreWithin(log: seq<Admission>, a: Admission, from: real, to: real)
    ensures AdmittedWithin(log + [a], from, to) == AdmittedWithin(log, from, to) + if from <= a.time <= to then 1 else 0
  {
    assert (log + [a])[..|log|] == log;
  }

  lemma OneMoreArrival(arr: seq<Arrival>, a: Arrival, n: nat, from: real, to: real)
    requires n < a.lim.maxRequests && a.lim.windowSeconds > 0 && from <= a.now <= to
    requires var e := Lookup(TableAfter(arr), a.key);
             if n > 0 then e == Some(Entry(n, a.now + Window(a.lim))) else e.Some? ==> a.now >= e.value.expiresAt
    ensures AdmittedWithin(Admitted(arr + [a], a.key), from, to) == AdmittedWithin(Admitted(arr, a.key), from, to) + 1
    ensures Lookup(TableAfter(arr + [a]), a.key) == Some(Entry(n + 1, a.now + Window(a.lim)))
  {
    hide TableAfter, Admitted, AdmittedWithin;
    ArrivalUnfolds(arr, a);
    var e := NextEntry(Lookup(TableAfter(arr), a.key), a.now, a.lim);
    assert e == Entry(n + 1, a.now + Window(a.lim));
    hide NextEntry;
    OneMoreWithin(Admitted(arr, a.key), Admission(a.now, e.expiresAt), from, to);
  }

  lemma NothingYet(key: string, from: real, to: real)
    ensures TableAfter([]) == map[] && AdmittedWithin(Admitted([], key), from, to) == 0
  {
  }

  /** Bursts at both ends of an interval of one window length get twice `max_requests` through. */
  lemma TwiceMaxIsReached(key: string, lim: Limit) returns (arr: seq<Arrival>)
    requires lim.windowSeconds > 0 && lim.maxRequests >= 0
    ensures InClockOrder(arr) && Uniform(arr, key, lim)
    ensures AdmittedWithin(Admitted(arr, key), 0.0, Window(lim)) == 2 * lim.maxRequests
  {
    hide Admitted, TableAfter, AdmittedWithin;
    NothingYet(key, 0.0, Window(lim));
    var n := lim.maxRequests;
    BurstIsAdmitted([], key, lim, 0.0, n, 0.0, Window(lim));
    var first := [] + Burst(key, lim, 0.0, n);
    if n == 0 {
      assert first == [];
    }
    BurstIsAdmitted(first, key, lim, Window(lim), n, 0.0, Window(lim));
    arr := first + Burst(key, lim, Window(lim), n);
  }
}
