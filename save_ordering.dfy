/** The two PasteService versions side by side, over the same metadata table and bucket: they
    agree whenever S3 does, and differ in what a failed upload leaves behind -- the newer one
    writes the row first, the older one uploads first. */
module SaveOrdering {
  import opened Common
  import opened Entities
  import opened Base64Url
  import opened TimestampFormat
  import opened KeyGeneration
  import opened RedisStore
  import R = RedisPasteService
  import L = LegacyPasteService

  /** The durable part of the newer service's stores. */
  function DurableOf(s: R.Stores): L.Durable {
    L.Durable(s.rows, s.blobs)
  }

  /** Stores the newer service keeps well formed are well formed for the older one. */
  lemma WellFormedDurable(s: R.Stores)
    requires R.WellFormed(s)
    ensures L.WellFormed(DurableOf(s))
  {
    forall k | k in s.rows
      ensures k != ""
    {
      assert |k| == KeyLength;
    }
  }

  /** After a failed upload of a new key, the newer service has committed a row with no
      blob, and findByKey for it fails with a storage error; the older service has changed
      nothing, and findByKey for it answers NotFound. */
  lemma FailedUploadOutcomes(s: R.Stores, pasteData: PasteData, digest: seq<Byte>, now: DateTime,
                             today: Date, later: int)
    requires R.WellFormed(s) && |digest| == DigestLength && ValidDateTime(now)
    requires var key := GenerateKey(digest, now);
      key !in s.rows && key !in s.blobs && key !in s.redis
    ensures var key := GenerateKey(digest, now);
      var newer := R.SaveToCloudStep(s, pasteData, digest, now, today, false);
      var older := L.SaveStep(DurableOf(s), pasteData, key, today, false);
      && newer.result == older.result == Err(StorageFailure)
      && key in newer.stores.rows && key !in newer.stores.blobs
      && R.WellFormed(newer.stores)
      && R.FindByKeyStep(newer.stores, key, later, true).result == Err(StorageFailure)
      && older.stores == DurableOf(s)
      && L.WellFormed(older.stores)
      && L.FindStep(older.stores, key, true).result == Err(NotFound)
  {
    R.SaveToCloudOrdering(s, pasteData, digest, now, today, false, later);
    WellFormedDurable(s);
  }

  /** When the upload succeeds, both orders end in the same rows and blobs and return the same
      key. */
  lemma SuccessfulSavesAgree(s: R.Stores, pasteData: PasteData, digest: seq<Byte>, now: DateTime,
                             today: Date)
    requires |digest| == DigestLength && ValidDateTime(now)
    ensures var key := GenerateKey(digest, now);
      var newer := R.SaveToCloudStep(s, pasteData, digest, now, today, true);
      var older := L.SaveStep(DurableOf(s), pasteData, key, today, true);
      && newer.result == older.result == Ok(key)
      && DurableOf(newer.stores) == older.stores
      && newer.stores.redis == s.redis
  {
  }

  /** deleteByKey and the older delete make the same change to the rows and blobs and report
      the same outcome, whatever S3 does; the newer one also leaves Redis alone. */
  lemma DeletesAgree(s: R.Stores, key: string, s3Ok: bool)
    ensures var newer := R.DeleteByKeyStep(s, key, s3Ok);
      var older := L.DeleteStep(DurableOf(s), key, s3Ok);
      && newer.result == older.result
      && DurableOf(newer.stores) == older.stores
      && newer.stores.redis == s.redis
  {
  }

  /** While every cached text is what its blob reads back as, the cache is invisible: with S3
      answering, findByKey of the newer service returns what the older one returns, unless the
      cache still serves a text whose blob is gone. Neither changes the rows or the blobs. */
  lemma CacheIsTransparent(s: R.Stores, key: string, now: int)
    requires R.WellFormed(s) && R.CacheCoherent(s)
    ensures L.WellFormed(DurableOf(s))
    ensures var newer := R.FindByKeyStep(s, key, now, true);
      && DurableOf(newer.stores) == DurableOf(s)
      && (key in s.blobs || !Live(s.redis, key, now) ==>
            newer.result == L.FindStep(DurableOf(s), key, true).result)
  {
    WellFormedDurable(s);
    if key in s.rows {
      if Live(s.redis, key, now) {
        R.FindByKeyCacheHit(s, key, now, true);
      } else {
        R.FindByKeyCacheMiss(s, key, now, true);
      }
    }
  }
}
