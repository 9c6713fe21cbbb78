/** The Redis-backed PasteService (paste/impl): the paste lifecycle over four stores -- the
    metadata table (key -> row), the S3 bucket (key -> text), the Redis cache (key -> text, with
    a 15-minute expiry) and the per-key access counters ("access_count:" + key, 10-minute
    expiry) that decide when a text is promoted into the cache.

    Each operation is a pure Step function over the store contents; the class below performs
    the same operation step by step on its fields and is proved to end in the Step's state. */
module RedisPasteService {
  import opened Common
  import opened Entities
  import opened PasteMapper
  import opened Base64Url
  import opened TimestampFormat
  import opened KeyGeneration
  import opened TextFile
  import opened RedisStore
  import opened BlobStore

  /** CACHE_TTL, in minutes. */
  const CacheTtl := 15
  /** Expiry of an access counter, in minutes, set by its first increment. */
  const CounterTtl := 10
  /** A text is cached once its counter exceeds this many misses. */
  const CacheThreshold := 10
  /** ACCESS_COUNT_PREFIX. */
  const AccessCountPrefix := "access_count:"

  function CounterKey(key: string): string {
    AccessCountPrefix + key
  }

  predicate IsCounterKey(k: string) {
    |k| >= |AccessCountPrefix| && k[..|AccessCountPrefix|] == AccessCountPrefix
  }

  /** The contents of the four stores; the cache and the counters share one Redis keyspace. */
  datatype Stores = Stores(rows: map<string, Paste>, blobs: Blobs, redis: Redis)

  /** The stores after an operation, and what the operation returned or threw. */
  datatype Step<T> = Step(stores: Stores, result: Result<T>)

  /** Rows are filed under their generated key; Redis holds texts only under paste keys and
      counters only under counter keys. */
  predicate WellFormed(s: Stores) {
    && (forall k :: k in s.rows ==> KeyShape(k) && s.rows[k].key == k)
    && (forall k :: k in s.redis && s.redis[k].value.Text? ==> KeyShape(k))
    && (forall k :: k in s.redis && s.redis[k].value.Counter? ==> IsCounterKey(k))
  }

  /** Every cached text is what reading the stored blob gives. */
  predicate CacheCoherent(s: Stores) {
    forall k :: k in s.redis && s.redis[k].value.Text? && k in s.blobs ==>
      s.redis[k].value.text == ReadBack(s.blobs[k])
  }

  /** A generated key is never a counter key, and a counter key is never a generated key: the
      two uses of the Redis keyspace cannot collide. */
  lemma KeyShapeIsNotCounterKey(k: string)
    requires KeyShape(k)
    ensures !IsCounterKey(k)
    ensures forall key :: CounterKey(key) != k
  {
    KeyShapeHasNoColon(k);
    if |k| >= |AccessCountPrefix| {
      assert k[12] in k;
      assert k[..|AccessCountPrefix|][12] != AccessCountPrefix[12];
    }
    forall key
      ensures CounterKey(key) != k
    {
      assert CounterKey(key)[12] == ':';
    }
  }

  lemma CounterKeyIsCounterKey(key: string)
    ensures IsCounterKey(CounterKey(key)) && !KeyShape(CounterKey(key))
  {
    if KeyShape(CounterKey(key)) {
      KeyShapeIsNotCounterKey(CounterKey(key));
    }
  }

  // ---------------------------------------------------------------------------------------
  // The operations as transitions of the stores

  /** saveToCloud: the row {key, createDate = today, endDate} is saved first, then the text is
      uploaded; a failed upload propagates with the row already committed. */
  function SaveToCloudStep(s: Stores, pasteData: PasteData, digest: seq<Byte>, now: DateTime,
                           today: Date, s3Ok: bool): Step<string>
    requires |digest| == DigestLength && ValidDateTime(now)
  {
    var key := GenerateKey(digest, now);
    var rows := s.rows[key := ToPaste(pasteData, key, today)];
    match Upload(s.blobs, key, WriteStringToFile(pasteData.text), s3Ok)
    case Ok(blobs) => Step(s.(rows := rows, blobs := blobs), Ok(key))
    case Err(e) => Step(s.(rows := rows), Err(e))
  }

  /** shouldCashed: increment the key's access counter, give it a 10-minute expiry when the
      count is 1, and answer whether the count exceeds 10. */
  function ShouldCacheStep(r: Redis, key: string, now: int): (Redis, bool)
    requires !(Live(r, CounterKey(key), now) && r[CounterKey(key)].value.Text?)
  {
    var ck := CounterKey(key);
    var (r1, count) := Increment(r, ck, now);
    var r2 := if count == 1 then Expire(r1, ck, CounterTtl, now) else r1;
    (r2, count > CacheThreshold)
  }

  /** findByKey: no row means NotFound; a cached text is returned as it is; otherwise the blob
      is downloaded and read, the counter consulted, and the text cached when it is hot. */
  function FindByKeyStep(s: Stores, key: string, now: int, s3Ok: bool): Step<PasteData>
    requires WellFormed(s)
  {
    if key !in s.rows then Step(s, Err(NotFound))
    else
      var endDate := s.rows[key].endDate;
      KeyShapeIsNotCounterKey(key);
      CounterKeyIsCounterKey(key);
      match Get(s.redis, key, now)
      case Some(cached) => Step(s, Ok(PasteData(cached, None, endDate)))
      case None =>
        match Download(s.blobs, key, s3Ok)
        case Err(e) => Step(s, Err(e))
        case Ok(content) =>
          var text := ReadBack(content);
          var (r1, hot) := ShouldCacheStep(s.redis, key, now);
          var r2 := if hot then SetWithTtl(r1, key, text, CacheTtl, now) else r1;
          Step(s.(redis := r2), Ok(PasteData(text, None, endDate)))
  }

  /** deleteByKey: an empty key is refused before any store is touched; otherwise the row is
      deleted, then the blob. deleteByKey is @Transactional, so when the blob deletion fails the
      row deletion is rolled back. The cache and the counter are left alone. */
  function DeleteByKeyStep(s: Stores, key: string, s3Ok: bool): Step<()> {
    if key == "" then Step(s, Err(InvalidKey))
    else
      match DeleteObject(s.blobs, key, s3Ok)
      case Ok(blobs) => Step(s.(rows := s.rows - {key}, blobs := blobs), Ok(()))
      case Err(e) => Step(s, Err(e))
  }

  /** The paste has an end date strictly before today (findByEndDateBefore); a paste without an
      end date never expires. */
  predicate Expired(p: Paste, today: Date) {
    p.endDate.Some? && p.endDate.value < today
  }

  function ExpiredKeys(rows: map<string, Paste>, today: Date): set<string> {
    set k | k in rows && Expired(rows[k], today)
  }

  function KeysOf(listing: seq<string>): set<string> {
    set k | k in listing
  }

  /** findByEndDateBefore(today): the keys of the expired rows, each once, in the order the
      database returns them. */
  predicate IsExpiredListing(rows: map<string, Paste>, today: Date, listing: seq<string>) {
    && (forall i, j :: 0 <= i < j < |listing| ==> listing[i] != listing[j])
    && KeysOf(listing) == ExpiredKeys(rows, today)
  }

  /** The forEach over the listing: deleteByKey on each key in turn, stopping at the first
      exception; oks[i] is the outcome of the i-th blob deletion. */
  function DeleteEach(s: Stores, listing: seq<string>, oks: seq<bool>): Step<()>
    requires |oks| == |listing|
    decreases |listing|
  {
    if |listing| == 0 then Step(s, Ok(()))
    else
      var first := DeleteByKeyStep(s, listing[0], oks[0]);
      if first.result.Err? then first
      else DeleteEach(first.stores, listing[1..], oks[1..])
  }

  /** deleteExpiredPaste: one transaction around the whole sweep; an exception rolls back every
      row deletion, while the blobs already deleted stay deleted. */
  function DeleteExpiredStep(s: Stores, listing: seq<string>, oks: seq<bool>): Step<()>
    requires |oks| == |listing|
  {
    var swept := DeleteEach(s, listing, oks);
    if swept.result.Err? then Step(swept.stores.(rows := s.rows), swept.result) else swept
  }

  // ---------------------------------------------------------------------------------------
  // Invariants the operations keep

  lemma SaveToCloudKeepsWellFormed(s: Stores, pasteData: PasteData, digest: seq<Byte>,
                                   now: DateTime, today: Date, s3Ok: bool)
    requires WellFormed(s) && |digest| == DigestLength && ValidDateTime(now)
    ensures WellFormed(SaveToCloudStep(s, pasteData, digest, now, today, s3Ok).stores)
  {
  }

  lemma FindByKeyKeepsWellFormed(s: Stores, key: string, now: int, s3Ok: bool)
    requires WellFormed(s)
    ensures WellFormed(FindByKeyStep(s, key, now, s3Ok).stores)
  {
    if key in s.rows {
      CounterKeyIsCounterKey(key);
    }
  }

  lemma DeleteByKeyKeepsWellFormed(s: Stores, key: string, s3Ok: bool)
    requires WellFormed(s)
    ensures WellFormed(DeleteByKeyStep(s, key, s3Ok).stores)
  {
  }

  /** The sweep only removes rows and blobs: what is left is a part of what was there, and
      Redis is untouched. */
  lemma {:induction false} DeleteEachOnlyRemoves(s: Stores, listing: seq<string>, oks: seq<bool>)
    requires |oks| == |listing|
    ensures var t := DeleteEach(s, listing, oks).stores;
      && t.redis == s.redis
      && t.rows.Keys <= s.rows.Keys && (forall k :: k in t.rows ==> t.rows[k] == s.rows[k])
      && t.blobs.Keys <= s.blobs.Keys && (forall k :: k in t.blobs ==> t.blobs[k] == s.blobs[k])
    decreases |listing|
  {
    if |listing| > 0 {
      var first := DeleteByKeyStep(s, listing[0], oks[0]);
      if first.result.Ok? {
        DeleteEachOnlyRemoves(first.stores, listing[1..], oks[1..]);
      }
    }
  }

  lemma DeleteExpiredKeepsWellFormed(s: Stores, listing: seq<string>, oks: seq<bool>)
    requires WellFormed(s) && |oks| == |listing|
    ensures WellFormed(DeleteExpiredStep(s, listing, oks).stores)
  {
    DeleteEachOnlyRemoves(s, listing, oks);
  }

  /** Cache coherence: findByKey caches only the text it has just downloaded. */
  lemma FindByKeyKeepsCacheCoherent(s: Stores, key: string, now: int, s3Ok: bool)
    requires WellFormed(s) && CacheCoherent(s)
    ensures CacheCoherent(FindByKeyStep(s, key, now, s3Ok).stores)
  {
    if key in s.rows {
      CounterKeyIsCounterKey(key);
      KeyShapeIsNotCounterKey(key);
    }
  }

  /** Deleting rows and blobs never makes a cache entry disagree with its blob. */
  lemma DeletionsKeepCacheCoherent(s: Stores, key: string, s3Ok: bool,
                                   listing: seq<string>, oks: seq<bool>)
    requires CacheCoherent(s) && |oks| == |listing|
    ensures CacheCoherent(DeleteByKeyStep(s, key, s3Ok).stores)
    ensures CacheCoherent(DeleteExpiredStep(s, listing, oks).stores)
  {
    DeleteEachOnlyRemoves(s, listing, oks);
  }

  /** Saving keeps the cache coherent unless a stale cache entry already sits under the new
      key (a key reused after a collision): then the cache would serve the old text. */
  lemma SaveToCloudKeepsCacheCoherent(s: Stores, pasteData: PasteData, digest: seq<Byte>,
                                      now: DateTime, today: Date, s3Ok: bool)
    requires CacheCoherent(s) && |digest| == DigestLength && ValidDateTime(now)
    requires GenerateKey(digest, now) !in s.redis
    ensures CacheCoherent(SaveToCloudStep(s, pasteData, digest, now, today, s3Ok).stores)
  {
  }

  // ---------------------------------------------------------------------------------------
  // What each operation promises

  /** saveToCloud commits the row before the upload: after a failed upload the row is there
      but the blob is not, and a later findByKey fails with a storage error instead of
      NotFound. After a successful upload both are there and the key is returned. No other row,
      no other blob and nothing in Redis changes. */
  lemma SaveToCloudOrdering(s: Stores, pasteData: PasteData, digest: seq<Byte>, now: DateTime,
                            today: Date, s3Ok: bool, later: int)
    requires WellFormed(s) && |digest| == DigestLength && ValidDateTime(now)
    requires GenerateKey(digest, now) !in s.blobs && GenerateKey(digest, now) !in s.redis
    ensures var key := GenerateKey(digest, now);
      var st := SaveToCloudStep(s, pasteData, digest, now, today, s3Ok);
      && st.stores.rows == s.rows[key := Paste(None, key, today, pasteData.endDate)]
      && st.stores.blobs == (if s3Ok then s.blobs[key := pasteData.text] else s.blobs)
      && st.stores.redis == s.redis
      && (st.result == if s3Ok then Ok(key) else Err(StorageFailure))
      && (key in st.stores.blobs <==> s3Ok)
      && (!s3Ok ==> WellFormed(st.stores) && FindByKeyStep(st.stores, key, later, true).result == Err(StorageFailure))
  {
    SaveToCloudKeepsWellFormed(s, pasteData, digest, now, today, s3Ok);
  }

  /** Round trip: right after a successful save, findByKey returns the text as read back from
      the file that was uploaded, with the submitted end date; for text without '\r' and
      without a trailing '\n' that is the submitted text itself. */
  lemma SaveThenFind(s: Stores, pasteData: PasteData, digest: seq<Byte>, now: DateTime,
                     today: Date, later: int)
    requires WellFormed(s) && |digest| == DigestLength && ValidDateTime(now)
    requires GenerateKey(digest, now) !in s.redis
    ensures var key := GenerateKey(digest, now);
      var st := SaveToCloudStep(s, pasteData, digest, now, today, true);
      && WellFormed(st.stores)
      && FindByKeyStep(st.stores, key, later, true).result
         == Ok(PasteData(ReadBack(pasteData.text), None, pasteData.endDate))
    ensures '\r' !in pasteData.text && (|pasteData.text| > 0 ==> pasteData.text[|pasteData.text| - 1] != '\n') ==>
      FindByKeyStep(SaveToCloudStep(s, pasteData, digest, now, today, true).stores,
                    GenerateKey(digest, now), later, true).result
      == Ok(PasteData(pasteData.text, None, pasteData.endDate))
  {
    SaveToCloudKeepsWellFormed(s, pasteData, digest, now, today, true);
    if '\r' !in pasteData.text && (|pasteData.text| > 0 ==> pasteData.text[|pasteData.text| - 1] != '\n') {
      ReadBackOfWrittenText(pasteData.text);
    }
  }

  /** NotFound wins: without a row, findByKey fails before it looks at the cache, the blob store
      or the counter -- even when Redis still holds a text for the key. */
  lemma FindByKeyNotFoundFirst(s: Stores, key: string, now: int, s3Ok: bool)
    requires WellFormed(s) && key !in s.rows
    ensures FindByKeyStep(s, key, now, s3Ok) == Step(s, Err(NotFound))
  {
  }

  /** A cache hit returns the cached text with the row's end date, downloads nothing and leaves
      every store, the counter included, as it was. */
  lemma FindByKeyCacheHit(s: Stores, key: string, now: int, s3Ok: bool)
    requires WellFormed(s) && key in s.rows && Live(s.redis, key, now)
    ensures s.redis[key].value.Text?
    ensures FindByKeyStep(s, key, now, s3Ok)
            == Step(s, Ok(PasteData(s.redis[key].value.text, None, s.rows[key].endDate)))
  {
    KeyShapeIsNotCounterKey(key);
  }

  /** A cache miss returns the downloaded text and the row's end date, bumps the key's counter
      by one and writes the cache only when the new count exceeds the threshold; nothing else
      changes. A failed download changes nothing. */
  lemma FindByKeyCacheMiss(s: Stores, key: string, now: int, s3Ok: bool)
    requires WellFormed(s) && key in s.rows && !Live(s.redis, key, now)
    ensures var st := FindByKeyStep(s, key, now, s3Ok);
      var ck := CounterKey(key);
      var before := if Live(s.redis, ck, now) then s.redis[ck].value.count else 0;
      if s3Ok && key in s.blobs then
        && st.result == Ok(PasteData(ReadBack(s.blobs[key]), None, s.rows[key].endDate))
        && st.stores.rows == s.rows && st.stores.blobs == s.blobs
        && ck in st.stores.redis && st.stores.redis[ck].value == Counter(before + 1)
        && (Live(st.stores.redis, key, now) <==> before + 1 > CacheThreshold)
        && (before + 1 > CacheThreshold ==>
              st.stores.redis[key] == RedisEntry(Text(ReadBack(s.blobs[key])), Some(now + CacheTtl)))
        && (forall k :: k != key && k != ck ==> (k in st.stores.redis <==> k in s.redis))
        && (forall k :: k in s.redis && k != key && k != ck ==> st.stores.redis[k] == s.redis[k])
      else
        st == Step(s, Err(StorageFailure))
  {
    CounterKeyIsCounterKey(key);
    KeyShapeIsNotCounterKey(key);
  }

  /** shouldCashed raises the counter by exactly one, sets the 10-minute expiry only on the
      first access of a window (a live counter keeps its expiry), and says yes exactly when
      the new count is above 10. */
  lemma ShouldCacheCounts(r: Redis, key: string, now: int)
    requires !(Live(r, CounterKey(key), now) && r[CounterKey(key)].value.Text?)
    ensures var ck := CounterKey(key);
      var before := if Live(r, ck, now) then r[ck].value.count else 0;
      var (r', hot) := ShouldCacheStep(r, key, now);
      && r'[ck].value == Counter(before + 1)
      && r'[ck].expiresAt == (if before + 1 == 1 then Some(now + CounterTtl)
                              else if Live(r, ck, now) then r[ck].expiresAt else None)
      && (hot <==> before + 1 > CacheThreshold)
      && (forall k :: k != ck ==> (k in r' <==> k in r))
      && (forall k :: k in r && k != ck ==> r'[k] == r[k])
  {
  }

  /** findByKey applied to the same key at each of the given minutes, every download
      succeeding. */
  function FindRepeatedly(s: Stores, key: string, times: seq<int>): (t: Stores)
    requires WellFormed(s)
    ensures WellFormed(t)
    decreases |times|
  {
    if |times| == 0 then s
    else
      var before := FindRepeatedly(s, key, times[..|times| - 1]);
      FindByKeyKeepsWellFormed(before, key, times[|times| - 1], true);
      FindByKeyStep(before, key, times[|times| - 1], true).stores
  }

  /** The first miss of a window starts the counter at 1 with a 10-minute expiry. */
  lemma FirstMiss(s: Stores, key: string, now: int)
    requires WellFormed(s) && key in s.rows && key in s.blobs
    requires !Live(s.redis, key, now) && CounterKey(key) !in s.redis
    ensures FindByKeyStep(s, key, now, true)
            == Step(s.(redis := s.redis[CounterKey(key) := RedisEntry(Counter(1), Some(now + CounterTtl))]),
                    Ok(PasteData(ReadBack(s.blobs[key]), None, s.rows[key].endDate)))
  {
    CounterKeyIsCounterKey(key);
    KeyShapeIsNotCounterKey(key);
  }

  /** A later miss inside the window only raises the counter; the eleventh also caches. */
  lemma LaterMiss(s: Stores, key: string, now: int, count: int, expiry: int)
    requires WellFormed(s) && key in s.rows && key in s.blobs && !Live(s.redis, key, now)
    requires CounterKey(key) in s.redis
    requires s.redis[CounterKey(key)] == RedisEntry(Counter(count), Some(expiry))
    requires count >= 1 && now < expiry
    ensures var text := ReadBack(s.blobs[key]);
      var counted := s.redis[CounterKey(key) := RedisEntry(Counter(count + 1), Some(expiry))];
      FindByKeyStep(s, key, now, true)
      == Step(s.(redis := if count + 1 > CacheThreshold
                          then counted[key := RedisEntry(Text(text), Some(now + CacheTtl))]
                          else counted),
              Ok(PasteData(text, None, s.rows[key].endDate)))
  {
    CounterKeyIsCounterKey(key);
    KeyShapeIsNotCounterKey(key);
  }

  /** The counter state after `misses` misses of a window that opened at minute start. */
  function Counted(s: Stores, key: string, misses: int, start: int): Stores {
    s.(redis := s.redis[CounterKey(key) := RedisEntry(Counter(misses), Some(start + CounterTtl))])
  }

  /** The stores after the miss that makes the counter `misses` in a window that opened at
      minute start, the miss falling at minute now: past the threshold the text is cached. */
  function AfterMiss(s: Stores, key: string, misses: int, start: int, now: int): Stores
    requires key in s.blobs
  {
    var next := Counted(s, key, misses, start);
    if misses > CacheThreshold
    then next.(redis := next.redis[key := RedisEntry(Text(ReadBack(s.blobs[key])), Some(now + CacheTtl))])
    else next
  }

  /** The miss that makes the counter `misses` inside the window; past the threshold it also
      caches. */
  lemma MissAfterCounted(s: Stores, key: string, misses: int, start: int, now: int)
    requires WellFormed(s) && key in s.rows && key in s.blobs && key !in s.redis
    requires misses >= 2 && now < start + CounterTtl
    ensures FindByKeyStep(Counted(s, key, misses - 1, start), key, now, true).stores
            == AfterMiss(s, key, misses, start, now)
  {
    KeyShapeIsNotCounterKey(key);
    CounterKeyIsCounterKey(key);
    var before := Counted(s, key, misses - 1, start);
    assert WellFormed(before);
    LaterMiss(before, key, now, misses - 1, start + CounterTtl);
  }

  /** One more miss inside the window raises the counter; the eleventh also caches. */
  lemma NextMissInWindow(s: Stores, key: string, times: seq<int>)
    requires WellFormed(s) && key in s.rows && key in s.blobs
    requires key !in s.redis
    requires 2 <= |times| <= CacheThreshold + 1
    requires times[|times| - 1] < times[0] + CounterTtl
    requires FindRepeatedly(s, key, times[..|times| - 1]) == Counted(s, key, |times| - 1, times[0])
    ensures FindRepeatedly(s, key, times) == AfterMiss(s, key, |times|, times[0], times[|times| - 1])
  {
    FindRepeatedlyUnfold(s, key, times);
    MissAfterCounted(s, key, |times|, times[0], times[|times| - 1]);
  }

  /** One more call of findByKey after the others. */
  lemma FindRepeatedlyUnfold(s: Stores, key: string, times: seq<int>)
    requires WellFormed(s) && |times| >= 1
    ensures FindRepeatedly(s, key, times)
            == FindByKeyStep(FindRepeatedly(s, key, times[..|times| - 1]), key, times[|times| - 1], true).stores
  {
  }

  /** Within one counter window, misses one to ten only count: after the m-th miss the counter
      is m with the expiry the first miss gave it, and nothing else has changed. */
  lemma {:induction false} MissesBelowThresholdDoNotCache(s: Stores, key: string, times: seq<int>)
    requires WellFormed(s) && key in s.rows && key in s.blobs
    requires key !in s.redis && CounterKey(key) !in s.redis
    requires 1 <= |times| <= CacheThreshold
    requires forall i :: 0 <= i < |times| ==> times[i] < times[0] + CounterTtl
    ensures FindRepeatedly(s, key, times) == Counted(s, key, |times|, times[0])
    decreases |times|
  {
    var n := |times|;
    if n == 1 {
      assert FindRepeatedly(s, key, times[..0]) == s;
      FirstMiss(s, key, times[0]);
    } else {
      var shorter := times[..n - 1];
      assert shorter[0] == times[0];
      MissesBelowThresholdDoNotCache(s, key, shorter);
      NextMissInWindow(s, key, times);
    }
  }

  /** The eleventh miss inside the window writes the downloaded text into the cache with the
      15-minute expiry. */
  lemma EleventhMissCaches(s: Stores, key: string, times: seq<int>)
    requires WellFormed(s) && key in s.rows && key in s.blobs
    requires key !in s.redis && CounterKey(key) !in s.redis
    requires |times| == CacheThreshold + 1
    requires forall i :: 0 <= i < |times| ==> times[i] < times[0] + CounterTtl
    ensures key in FindRepeatedly(s, key, times).redis
    ensures FindRepeatedly(s, key, times).redis[key]
            == RedisEntry(Text(ReadBack(s.blobs[key])), Some(times[CacheThreshold] + CacheTtl))
  {
    var first := times[..CacheThreshold];
    assert first[0] == times[0];
    MissesBelowThresholdDoNotCache(s, key, first);
    assert times[..|times| - 1] == first;
    NextMissInWindow(s, key, times);
  }

  /** deleteByKey: an empty key is refused and nothing changes; otherwise the row and the blob
      are gone on success, and on a storage failure the row deletion is rolled back. Redis --
      cache and counter -- is never touched. */
  lemma DeleteByKeyOutcome(s: Stores, key: string, s3Ok: bool)
    ensures var st := DeleteByKeyStep(s, key, s3Ok);
      && st.stores.redis == s.redis
      && (key == "" ==> st == Step(s, Err(InvalidKey)))
      && (key != "" && !s3Ok ==> st == Step(s, Err(StorageFailure)))
      && (key != "" && s3Ok ==>
            && st.result == Ok(())
            && st.stores.rows.Keys == s.rows.Keys - {key}
            && st.stores.blobs.Keys == s.blobs.Keys - {key}
            && (forall k :: k in st.stores.rows ==> st.stores.rows[k] == s.rows[k])
            && (forall k :: k in st.stores.blobs ==> st.stores.blobs[k] == s.blobs[k]))
  {
  }

  /** After a successful delete, findByKey answers NotFound, although the cache may still hold
      the text. */
  lemma DeleteThenFindNotFound(s: Stores, key: string, now: int, s3Ok: bool)
    requires WellFormed(s)
    requires DeleteByKeyStep(s, key, true).result.Ok?
    ensures var t := DeleteByKeyStep(s, key, true).stores;
      && WellFormed(t) && t.redis == s.redis
      && FindByKeyStep(t, key, now, s3Ok) == Step(t, Err(NotFound))
  {
    DeleteByKeyKeepsWellFormed(s, key, true);
  }

  lemma {:induction false} DeleteEachAllSucceed(s: Stores, listing: seq<string>, oks: seq<bool>)
    requires |oks| == |listing|
    requires forall i :: 0 <= i < |listing| ==> listing[i] != "" && oks[i]
    ensures DeleteEach(s, listing, oks)
            == Step(s.(rows := s.rows - KeysOf(listing), blobs := s.blobs - KeysOf(listing)), Ok(()))
    decreases |listing|
  {
    if |listing| > 0 {
      var first := DeleteByKeyStep(s, listing[0], oks[0]);
      DeleteEachAllSucceed(first.stores, listing[1..], oks[1..]);
      assert KeysOf(listing) == {listing[0]} + KeysOf(listing[1..]);
    }
  }

  /** deleteExpiredPaste with every blob deletion succeeding removes exactly the rows whose end
      date is before today and their blobs, keeps every other row and blob as it was, and
      leaves Redis alone. */
  lemma SweepRemovesExactlyExpired(s: Stores, today: Date, listing: seq<string>, oks: seq<bool>)
    requires WellFormed(s) && IsExpiredListing(s.rows, today, listing)
    requires |oks| == |listing| && forall i :: 0 <= i < |oks| ==> oks[i]
    ensures var st := DeleteExpiredStep(s, listing, oks);
      && st.result == Ok(())
      && (forall k :: k in st.stores.rows <==> k in s.rows && !Expired(s.rows[k], today))
      && (forall k :: k in st.stores.rows ==> st.stores.rows[k] == s.rows[k])
      && st.stores.blobs.Keys == s.blobs.Keys - ExpiredKeys(s.rows, today)
      && (forall k :: k in st.stores.blobs ==> st.stores.blobs[k] == s.blobs[k])
      && st.stores.redis == s.redis
  {
    forall i | 0 <= i < |listing|
      ensures listing[i] != ""
    {
      assert listing[i] in ExpiredKeys(s.rows, today);
    }
    DeleteEachAllSucceed(s, listing, oks);
    assert KeysOf(listing) == ExpiredKeys(s.rows, today);
  }

  lemma {:induction false} DeleteEachStopsAtFailure(s: Stores, listing: seq<string>, oks: seq<bool>, f: nat)
    requires |oks| == |listing| && f < |listing|
    requires forall i :: 0 <= i < |listing| ==> listing[i] != ""
    requires !oks[f] && forall i :: 0 <= i < f ==> oks[i]
    ensures var st := DeleteEach(s, listing, oks);
      && st.result == Err(StorageFailure)
      && st.stores.blobs == s.blobs - KeysOf(listing[..f])
      && st.stores.redis == s.redis
    decreases f
  {
    if f > 0 {
      var first := DeleteByKeyStep(s, listing[0], oks[0]);
      DeleteEachStopsAtFailure(first.stores, listing[1..], oks[1..], f - 1);
      assert KeysOf(listing[..f]) == {listing[0]} + KeysOf(listing[1..][..f - 1]);
    } else {
      assert KeysOf(listing[..f]) == {};
    }
  }

  /** When the blob deletion of the f-th listed paste fails, the sweep stops, the transaction
      restores every row, and the blobs of the pastes listed before it are gone: their rows now
      refer to missing blobs. */
  lemma SweepFailureRollsBackRows(s: Stores, today: Date, listing: seq<string>, oks: seq<bool>, f: nat)
    requires WellFormed(s) && IsExpiredListing(s.rows, today, listing)
    requires |oks| == |listing| && f < |listing|
    requires !oks[f] && forall i :: 0 <= i < f ==> oks[i]
    ensures var st := DeleteExpiredStep(s, listing, oks);
      && st.result == Err(StorageFailure)
      && st.stores.rows == s.rows
      && st.stores.blobs == s.blobs - KeysOf(listing[..f])
      && st.stores.redis == s.redis
      && (forall i :: 0 <= i < f ==> listing[i] in st.stores.rows && listing[i] !in st.stores.blobs)
  {
    forall i | 0 <= i < |listing|
      ensures listing[i] != "" && listing[i] in s.rows
    {
      assert listing[i] in ExpiredKeys(s.rows, today);
    }
    DeleteEachStopsAtFailure(s, listing, oks, f);
  }

  // ---------------------------------------------------------------------------------------
  // The service, operating on its stores in place

  class PasteService {
    /** pasteRepository: the metadata table. */
    var rows: map<string, Paste>
    /** The S3 bucket. */
    var blobs: Blobs
    /** The Redis keyspace: cached texts and access counters. */
    var redis: Redis

    function State(): Stores
      reads this
    {
      Stores(rows, blobs, redis)
    }

    predicate Valid()
      reads this
    {
      WellFormed(State())
    }

    constructor ()
      ensures Valid() && State() == Stores(map[], map[], map[])
    {
      rows, blobs, redis := map[], map[], map[];
    }

    /** saveToCloud(pasteData): digest, now and today stand for the random digest and the two
        clock readings; s3Ok is the outcome of the upload. */
    method SaveToCloud(pasteData: PasteData, digest: seq<Byte>, now: DateTime, today: Date, s3Ok: bool)
      returns (r: Result<string>)
      requires Valid() && |digest| == DigestLength && ValidDateTime(now)
      modifies this
      ensures Valid()
      ensures Step(State(), r) == SaveToCloudStep(old(State()), pasteData, digest, now, today, s3Ok)
    {
      ghost var s0 := State();
      var key := GenerateKey(digest, now);
      var paste := ToPaste(pasteData, key, today);
      var content := WriteStringToFile(pasteData.text);
      rows := rows[key := paste];
      var uploaded := Upload(blobs, key, content, s3Ok);
      if uploaded.Err? {
        r := Err(uploaded.error);
      } else {
        blobs := uploaded.value;
        r := Ok(key);
      }
      SaveToCloudKeepsWellFormed(s0, pasteData, digest, now, today, s3Ok);
    }

    /** downloadAndReadText(key): downloads the blob and reads it as readFileToString does. */
    method DownloadAndReadText(key: string, s3Ok: bool) returns (r: Result<string>)
      requires key != ""
      ensures r.Ok? <==> s3Ok && key in blobs
      ensures r.Ok? ==> r.value == ReadBack(blobs[key])
      ensures r.Err? ==> r.error == StorageFailure
    {
      var downloaded := Download(blobs, key, s3Ok);
      if downloaded.Err? {
        return Err(downloaded.error);
      }
      var text := ReadFileToString(downloaded.value, None);
      assert Lines(downloaded.value)[..LinesRead(downloaded.value, None)] == Lines(downloaded.value);
      r := Ok(text);
    }

    /** shouldCashed(key) at minute now. */
    method ShouldCache(key: string, now: int) returns (hot: bool)
      requires !(Live(redis, CounterKey(key), now) && redis[CounterKey(key)].value.Text?)
      modifies this
      ensures (redis, hot) == ShouldCacheStep(old(redis), key, now)
      ensures rows == old(rows) && blobs == old(blobs)
    {
      var accessCountKey := CounterKey(key);
      var incremented := Increment(redis, accessCountKey, now);
      var accessCount := incremented.1;
      redis := incremented.0;
      if accessCount == 1 {
        redis := Expire(redis, accessCountKey, CounterTtl, now);
      }
      hot := accessCount > CacheThreshold;
    }

    /** findByKey(key) at minute now; s3Ok is the outcome of the download, if one is made. */
    method FindByKey(key: string, now: int, s3Ok: bool) returns (r: Result<PasteData>)
      requires Valid()
      modifies this
      ensures Valid()
      ensures Step(State(), r) == FindByKeyStep(old(State()), key, now, s3Ok)
    {
      ghost var s0 := State();
      if key !in rows {
        return Err(NotFound);
      }
      var paste := rows[key];
      KeyShapeIsNotCounterKey(key);
      CounterKeyIsCounterKey(key);
      var cachedText := Get(redis, key, now);
      if cachedText.Some? {
        return Ok(PasteData(cachedText.value, None, paste.endDate));
      }
      var text := DownloadAndReadText(key, s3Ok);
      if text.Err? {
        return Err(text.error);
      }
      var hot := ShouldCache(key, now);
      if hot {
        redis := SetWithTtl(redis, key, text.value, CacheTtl, now);
      }
      r := Ok(PasteData(text.value, None, paste.endDate));
      FindByKeyKeepsWellFormed(s0, key, now, s3Ok);
    }

    /** deleteByKey(key); s3Ok is the outcome of the blob deletion. */
    method DeleteByKey(key: string, s3Ok: bool) returns (r: Result<()>)
      requires Valid()
      modifies this
      ensures Valid()
      ensures Step(State(), r) == DeleteByKeyStep(old(State()), key, s3Ok)
    {
      if key == "" {
        return Err(InvalidKey);
      }
      var committed := rows;
      rows := rows - {key};
      var deleted := DeleteObject(blobs, key, s3Ok);
      if deleted.Err? {
        rows := committed;  // the exception rolls the transaction back
        return Err(deleted.error);
      }
      blobs := deleted.value;
      r := Ok(());
    }

    /** deleteExpiredPaste(): listing is what findByEndDateBefore(today) returns, oks[i] the
        outcome of the i-th blob deletion. */
    method DeleteExpiredPaste(today: Date, listing: seq<string>, oks: seq<bool>) returns (r: Result<()>)
      requires Valid() && IsExpiredListing(rows, today, listing) && |oks| == |listing|
      modifies this
      ensures Valid()
      ensures Step(State(), r) == DeleteExpiredStep(old(State()), listing, oks)
    {
      ghost var s0 := State();
      var committed := rows;
      var i := 0;
      while i < |listing|
        invariant 0 <= i <= |listing|
        invariant Valid()
        invariant DeleteEach(s0, listing, oks) == DeleteEach(State(), listing[i..], oks[i..])
      {
        assert listing[i..][1..] == listing[i + 1..] && oks[i..][1..] == oks[i + 1..];
        var deleted := DeleteByKey(listing[i], oks[i]);
        if deleted.Err? {
          rows := committed;  // the exception rolls the whole sweep back
          return deleted;
        }
        i := i + 1;
      }
      r := Ok(());
    }
  }
}
