/** The Redis operations the paste service uses (GET, SET with expiry, INCR, EXPIRE) over a
    keyspace with per-key expiry, read against a clock in minutes. An entry whose expiry time
    has come is treated as absent, as Redis does. */
module RedisStore {
  import opened Common

  /** Redis keeps strings; the model keeps a cached paste text and an access counter apart. */
  datatype RedisValue = Text(text: string) | Counter(count: int)

  datatype RedisEntry = RedisEntry(value: RedisValue, expiresAt: Option<int>)

  type Redis = map<string, RedisEntry>

  /** The entry under key exists and its expiry time, if any, is still ahead at minute now. */
  predicate Live(r: Redis, key: string, now: int) {
    key in r && (r[key].expiresAt.None? || now < r[key].expiresAt.value)
  }

  /** opsForValue().get(key): the live text under key, or null (None). */
  function Get(r: Redis, key: string, now: int): (t: Option<string>)
    requires !(Live(r, key, now) && r[key].value.Counter?)
    ensures t.Some? <==> Live(r, key, now)
    ensures t.Some? ==> r[key].value == Text(t.value)
  {
    if Live(r, key, now) then Some(r[key].value.text) else None
  }

  /** opsForValue().set(key, text, ttl): replaces the value and sets its expiry. */
  function SetWithTtl(r: Redis, key: string, text: string, ttl: int, now: int): (r': Redis)
    ensures r'.Keys == r.Keys + {key}
    ensures r'[key] == RedisEntry(Text(text), Some(now + ttl))
    ensures forall k :: k in r && k != key ==> r'[k] == r[k]
  {
    r[key := RedisEntry(Text(text), Some(now + ttl))]
  }

  /** opsForValue().increment(key, 1): a missing or expired key starts again from 0 with no
      expiry; a live counter keeps its expiry. Returns the new count. */
  function Increment(r: Redis, key: string, now: int): (res: (Redis, int))
    requires !(Live(r, key, now) && r[key].value.Text?)
    ensures res.1 == (if Live(r, key, now) then r[key].value.count else 0) + 1
    ensures res.0 == r[key := RedisEntry(Counter(res.1),
                                         if Live(r, key, now) then r[key].expiresAt else None)]
    ensures Live(res.0, key, now)
  {
    if Live(r, key, now) then
      var c := r[key].value.count + 1;
      (r[key := r[key].(value := Counter(c))], c)
    else
      (r[key := RedisEntry(Counter(1), None)], 1)
  }

  /** expire(key, ttl): sets the expiry of a live key; no effect on a missing one. */
  function Expire(r: Redis, key: string, ttl: int, now: int): (r': Redis)
    ensures Live(r, key, now) ==> r' == r[key := RedisEntry(r[key].value, Some(now + ttl))]
    ensures !Live(r, key, now) ==> r' == r
  {
    if Live(r, key, now) then r[key := r[key].(expiresAt := Some(now + ttl))] else r
  }
}
