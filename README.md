# Pastebin paste lifecycle, modelled in Dafny

This project models the paste engine of the Pastebin service (package `ru.ion.app`) and proves
properties of it.

A paste is stored in two places:

- a metadata row `{key, createDate, endDate}` in the paste table;
- its text as an object under the same key in an S3 bucket.

The newer `PasteService` (`services/paste/impl`) also keeps a Redis cache of texts, with a
15-minute expiry. Texts enter the cache through a frequency gate: each cache miss raises a
per-key access counter `access_count:<key>`, which expires 10 minutes after the miss that
started it. A text is cached once its counter exceeds 10.

The older `PasteService` (`services`) has no cache, and it saves in the opposite order.

The model's parts:

- `Common`, `Entities`: the option and result types, the error kinds (`NotFound`,
  `InvalidKey`, `StorageFailure`), the `PasteData` transfer object and the `Paste` entity.
  Dates are epoch days.
- `PasteMapper`: `toPaste`.
- `Base64Url`: the padded URL-safe Base64 encoding of section 5 of RFC 4648, as
  `Base64.getUrlEncoder()` produces it. A decoder is included for the round trip.
- `TimestampFormat`: the `yyyyMMddHHmmss` formatter and reading the fields back.
- `KeyGeneration`: `generateRandomString` and `generateKey`. The SHA-256 digest and the
  clock are parameters.
- `TextFile`: `writeStringToFile`, and `readFileToString` as a loop over a model of
  `BufferedReader.readLine`. A line ends at `\n`, `\r` or `\r\n`. The loop is proved equal to
  joining the lines with `\n`.
- `RedisStore`: GET, SET with expiry, INCR and EXPIRE. Keys expire against a clock in
  minutes.
- `BlobStore`: the S3 calls `uploadFile`, `downloadFile` and `deleteFile`. Each refuses an
  empty key. A parameter `s3Ok` says whether the remote call succeeds.
- `RedisPasteService`: the newer service. Each operation is a pure `...Step` function over
  the contents of the stores. The class `PasteService` performs the same operation step by
  step on its map fields, and each method is proved to end in the state its `...Step`
  function gives. The lemmas state what each operation promises and which invariants it
  keeps.
- `LegacyPasteService`: the older service, built the same way.
- `SaveOrdering`: the two services side by side, on the same table and bucket.

Three behaviours of the code are easy to miss, because the Javadoc is silent about them or
says otherwise; the model follows the code:

- `deleteByKey`, `deleteExpiredPaste` and the older `delete` are `@Transactional`. A failed
  S3 deletion surfaces as a `CompletionException`, which is a runtime exception, so the
  transaction rolls back the row deletion. The `deleteByKey` Javadoc
  (`paste/impl/PasteService.java:151-164`) lists the row deletion, then the S3 deletion,
  and the exception it throws, with no word of the row coming back. The model restores the
  rows.
- `deleteExpiredPaste` runs as one transaction around the whole sweep. When one blob
  deletion fails, every row comes back, but the blobs deleted earlier in the sweep stay
  deleted.
- The `saveToCloud` Javadoc (`paste/impl/PasteService.java:41-57`) uploads the file to S3
  and saves the row only after a successful upload. Only the older `save` does that. The
  newer `saveToCloud` saves the row first, and it is not `@Transactional`, so the row stays
  when the upload fails.

## Model

| member | source | states |
|---|---|---|
| PasteMapper.ToPaste | src/main/java/ru/ion/app/mapper/PasteMapper.java:14-17 | the entity's key is the generated key, its createDate is the given date (the DTO's own createDate is ignored), its endDate is the DTO's, and its id is unset |
| PasteMapper.ToPasteDependsOnlyOnEndDate | src/main/java/ru/ion/app/mapper/PasteMapper.java:14-17 | for the same key and date, two DTOs map to the same entity exactly when their end dates agree (the text is not kept in the entity) |
| Base64Url.Symbol | src/main/java/ru/ion/app/services/keyGeneration/impl/KeyGenerationService.java:23 | every 6-bit value maps to a character of the URL-safe alphabet A-Z a-z 0-9 - _ |
| Base64Url.SymbolValueOfSymbol | src/main/java/ru/ion/app/services/keyGeneration/impl/KeyGenerationService.java:23 | the alphabet is a bijection: the value of the symbol of v is v |
| Base64Url.Encode | src/main/java/ru/ion/app/services/keyGeneration/impl/KeyGenerationService.java:23 | the padded URL-safe encoding: each group of three bytes becomes four symbols of its 6-bit values, and a final group of one or two bytes becomes two or three symbols followed by "==" or "=" |
| Base64Url.DecodeEncode | src/main/java/ru/ion/app/services/keyGeneration/impl/KeyGenerationService.java:23 | decoding the encoding of any byte string gives back that byte string |
| Base64Url.EncodeInjective | src/main/java/ru/ion/app/services/keyGeneration/impl/KeyGenerationService.java:23 | two byte strings have the same encoding if and only if they are equal |
| Base64Url.EncodeShape | src/main/java/ru/ion/app/services/keyGeneration/impl/KeyGenerationService.java:23 | the encoding has 4*ceil(n/3) characters, only URL-safe ones (never + or /) before the padding and only '=' in the (3 - n mod 3) mod 3 padding positions at the end |
| Base64Url.EncodePrefix | src/main/java/ru/ion/app/services/keyGeneration/impl/KeyGenerationService.java:23-24 | the first 4k characters of the encoding are the encoding of the first 3k bytes |
| TimestampFormat.Digits | src/main/java/ru/ion/app/services/keyGeneration/impl/KeyGenerationService.java:32-33 | a zero-padded field is exactly as wide as asked and all decimal digits |
| TimestampFormat.ParseDigitsOfDigits | src/main/java/ru/ion/app/services/keyGeneration/impl/KeyGenerationService.java:32-33 | a zero-padded field reads back as the number it was printed from |
| TimestampFormat.Format | src/main/java/ru/ion/app/services/keyGeneration/impl/KeyGenerationService.java:32-33 | for years 1 to 9999, yyyyMMddHHmmss is exactly 14 decimal digits |
| TimestampFormat.FormatFields | src/main/java/ru/ion/app/services/keyGeneration/impl/KeyGenerationService.java:32-33 | year, month, day, hour, minute and second read back from positions 0-4, 4-6, 6-8, 8-10, 10-12 and 12-14 |
| TimestampFormat.FormatInjective | src/main/java/ru/ion/app/services/keyGeneration/impl/KeyGenerationService.java:32-33 | two date-times format alike if and only if they are equal |
| KeyGeneration.GenerateRandomString | src/main/java/ru/ion/app/services/keyGeneration/impl/KeyGenerationService.java:15-25 | a negative length throws; otherwise the result is the first min(length, 44) characters of the digest's padded Base64url encoding: URL-safe except the 44th, which is the single '=' of a 32-byte digest's encoding |
| KeyGeneration.GenerateKey | src/main/java/ru/ion/app/services/keyGeneration/impl/KeyGenerationService.java:27-36 | a key is 22 characters: 8 URL-safe symbols followed by the 14-digit timestamp of its creation |
| KeyGeneration.KeyPrefixEncodesSixBytes | src/main/java/ru/ion/app/services/keyGeneration/impl/KeyGenerationService.java:23-28 | the 8-character prefix is the encoding of the first six digest bytes, so it never reaches the padding |
| KeyGeneration.KeyCollision | src/main/java/ru/ion/app/services/keyGeneration/impl/KeyGenerationService.java:15-36 | two keys collide if and only if the digests agree on their first six bytes and the creation times agree to the second |
| KeyGeneration.KeyShapeHasNoColon | src/main/java/ru/ion/app/services/keyGeneration/impl/KeyGenerationService.java:23-35 | a generated key never contains ':' |
| KeyGeneration.SampleKey | src/test/java/ru/ion/app/services/PasteServiceTests.java:30 | the sample key Ds66SaQr20240920203406 has the key shape, and its suffix is the timestamp of 2024-09-20 20:34:06 |
| TextFile.ReadLine | src/main/java/ru/ion/app/services/TextFileService.java:21 | readLine returns null exactly at the end of the content; otherwise it returns the characters from the position up to the next '\n', '\r' or "\r\n" (or the end), which contain no terminator, and resumes after that terminator, skipping two characters exactly for "\r\n" |
| TextFile.WriteStringToFile | src/main/java/ru/ion/app/services/TextFileService.java:9-15 | the file holds exactly the text written; a write error is not modelled |
| TextFile.LinesFrom | src/main/java/ru/ion/app/services/TextFileService.java:20-23 | the lines that successive readLine calls return from a position until readLine returns null |
| TextFile.AppendedDropLast | src/main/java/ru/ion/app/services/TextFileService.java:22-29 | deleting the last character of the lines each followed by "\n" gives the lines joined with "\n" |
| TextFile.ReadFileToString | src/main/java/ru/ion/app/services/TextFileService.java:17-31 | the result is the lines read before any read error, joined with "\n"; with no error, all the lines |
| TextFile.ReadBackHasNoCarriageReturn | src/main/java/ru/ion/app/services/TextFileService.java:17-31 | what is read back never contains '\r' |
| TextFile.ReadBackNotLonger | src/main/java/ru/ion/app/services/TextFileService.java:17-31 | what is read back is never longer than the file content |
| TextFile.ReadBackOfEmptyLines | src/main/java/ru/ion/app/services/TextFileService.java:17-31 | empty content and a single "\n" both read back as "" |
| TextFile.ReadBackOfWrittenText | src/main/java/ru/ion/app/services/TextFileService.java:9-31 | text with no '\r' and no trailing '\n' reads back exactly as it was written |
| TextFile.ReadBackNormalises | src/main/java/ru/ion/app/services/TextFileService.java:17-31 | "a\r\nb\n" reads back as "a\nb": "\r\n" becomes "\n" and the final terminator is dropped |
| RedisStore.Get | src/main/java/ru/ion/app/services/paste/impl/PasteService.java:100 | GET gives a text exactly when the key is live, and that text is the stored one |
| RedisStore.SetWithTtl | src/main/java/ru/ion/app/services/paste/impl/PasteService.java:106 | SET with expiry stores the text under the key, expiring ttl minutes from now, and leaves every other key alone |
| RedisStore.Increment | src/main/java/ru/ion/app/services/paste/impl/PasteService.java:123 | INCR returns the live count plus one (a missing or expired key counts from 0), and a live counter keeps its expiry |
| RedisStore.Expire | src/main/java/ru/ion/app/services/paste/impl/PasteService.java:125 | EXPIRE sets the expiry of a live key and does nothing to a missing one |
| BlobStore.Upload | src/main/java/ru/ion/app/services/s3/impl/S3Service.java:37-53 | the upload stores the content under the key exactly when S3 succeeds; otherwise it fails with a storage error |
| BlobStore.Download | src/main/java/ru/ion/app/services/s3/impl/S3Service.java:67-83 | the download gives the stored content exactly when S3 answers and the object exists |
| BlobStore.DeleteObject | src/main/java/ru/ion/app/services/s3/impl/S3Service.java:93-107 | a successful deletion removes exactly that key, and deleting a missing object succeeds |
| RedisPasteService.KeyShapeIsNotCounterKey | src/main/java/ru/ion/app/services/paste/impl/PasteService.java:122 | a generated key is never a counter key, so the cache and the counters never share a Redis key |
| RedisPasteService.CounterKeyIsCounterKey | src/main/java/ru/ion/app/services/paste/impl/PasteService.java:122 | "access_count:" + key is a counter key and never has the shape of a paste key |
| RedisPasteService.CounterKey | src/main/java/ru/ion/app/services/paste/impl/PasteService.java:122 | the counter key of a paste key is ACCESS_COUNT_PREFIX "access_count:" followed by the key |
| RedisPasteService.SaveToCloudStep | src/main/java/ru/ion/app/services/paste/impl/PasteService.java:66-78 | saveToCloud as a transition: generate the key, save the row {key, createDate = today, endDate}, then upload the written text; a failed upload leaves the saved row and throws |
| RedisPasteService.ShouldCacheStep | src/main/java/ru/ion/app/services/paste/impl/PasteService.java:121-128 | shouldCashed as a transition: INCR the counter key, EXPIRE it for 10 minutes when the count is 1, and answer whether the count exceeds 10 |
| RedisPasteService.FindByKeyStep | src/main/java/ru/ion/app/services/paste/impl/PasteService.java:96-109 | findByKey as a transition: NotFound without a row; a cached text returned as it is; otherwise download and read the blob, consult shouldCashed, SET the text for 15 minutes when it says yes |
| RedisPasteService.DeleteByKeyStep | src/main/java/ru/ion/app/services/paste/impl/PasteService.java:165-173 | deleteByKey as a transition: an empty key throws before any store changes; otherwise the row, then the blob, is deleted, and a failed blob deletion rolls the row deletion back |
| RedisPasteService.Expired | src/main/java/ru/ion/app/repositories/PasteRepository.java:13 | a row is returned by findByEndDateBefore(today) exactly when it has an end date strictly before today |
| RedisPasteService.IsExpiredListing | src/main/java/ru/ion/app/repositories/PasteRepository.java:13 | the listing findByEndDateBefore(today) returns holds the key of every expired row once |
| RedisPasteService.DeleteEach | src/main/java/ru/ion/app/services/paste/impl/PasteService.java:177-178 | the forEach as a transition: deleteByKey on each listed key in turn, stopping at the first exception |
| RedisPasteService.DeleteExpiredStep | src/main/java/ru/ion/app/services/paste/impl/PasteService.java:175-179 | deleteExpiredPaste as a transition: the forEach inside one transaction, whose rollback restores every row while deleted blobs stay deleted |
| RedisPasteService.SaveToCloudKeepsWellFormed | src/main/java/ru/ion/app/services/paste/impl/PasteService.java:66-78 | saveToCloud keeps rows under their own keys, texts only at paste keys and counters only at counter keys |
| RedisPasteService.FindByKeyKeepsWellFormed | src/main/java/ru/ion/app/services/paste/impl/PasteService.java:96-109 | findByKey keeps the same invariant |
| RedisPasteService.DeleteByKeyKeepsWellFormed | src/main/java/ru/ion/app/services/paste/impl/PasteService.java:165-173 | deleteByKey keeps the same invariant |
| RedisPasteService.DeleteEachOnlyRemoves | src/main/java/ru/ion/app/services/paste/impl/PasteService.java:176-178 | the forEach of deletions only removes rows and blobs and never touches Redis |
| RedisPasteService.DeleteExpiredKeepsWellFormed | src/main/java/ru/ion/app/services/paste/impl/PasteService.java:175-179 | deleteExpiredPaste keeps the invariant, on success and after rollback |
| RedisPasteService.FindByKeyKeepsCacheCoherent | src/main/java/ru/ion/app/services/paste/impl/PasteService.java:100-108 | while every cached text equals its blob read back, findByKey keeps it so: it caches only the text it has just downloaded |
| RedisPasteService.DeletionsKeepCacheCoherent | src/main/java/ru/ion/app/services/paste/impl/PasteService.java:165-179 | deleteByKey and deleteExpiredPaste keep the cache coherent |
| RedisPasteService.SaveToCloudKeepsCacheCoherent | src/main/java/ru/ion/app/services/paste/impl/PasteService.java:66-78 | saveToCloud keeps the cache coherent when no cache entry sits under the new key |
| RedisPasteService.SaveToCloudOrdering | src/main/java/ru/ion/app/services/paste/impl/PasteService.java:66-78 | the row {key, createDate = today, endDate} is committed whether or not the upload succeeds; the text is stored under the key exactly when the upload succeeds; no other row, no other blob and nothing in Redis changes; the key is returned on success; after a failed upload findByKey fails with a storage error, not NotFound |
| RedisPasteService.SaveThenFind | src/main/java/ru/ion/app/services/paste/impl/PasteService.java:66-108 | right after a successful save, findByKey returns the saved text as read back, with the submitted end date; exactly the submitted text when it has no '\r' and no trailing '\n' |
| RedisPasteService.FindByKeyNotFoundFirst | src/main/java/ru/ion/app/services/paste/impl/PasteService.java:96-98 | without a row findByKey is NotFound and changes nothing, whatever the cache holds |
| RedisPasteService.FindByKeyCacheHit | src/main/java/ru/ion/app/services/paste/impl/PasteService.java:100-103 | a cache hit returns the cached text with the row's end date, downloads nothing and leaves every store and the counter unchanged |
| RedisPasteService.FindByKeyCacheMiss | src/main/java/ru/ion/app/services/paste/impl/PasteService.java:104-108 | a miss returns the downloaded text read back with the row's end date, raises the counter by one, makes the key live in the cache if and only if the new count exceeds 10 (with a 15-minute expiry), and changes no other key; a failed download changes nothing |
| RedisPasteService.ShouldCacheCounts | src/main/java/ru/ion/app/services/paste/impl/PasteService.java:121-128 | shouldCashed raises the counter by exactly one, sets a 10-minute expiry only when the new count is 1, answers true if and only if the new count exceeds 10, and touches no other key |
| RedisPasteService.FindRepeatedly | src/main/java/ru/ion/app/services/paste/impl/PasteService.java:96-109 | a sequence of findByKey calls on one key, each with a successful download, keeps the store invariant (FindByKeyKeepsWellFormed covers a single call on every path, failed downloads included) |
| RedisPasteService.FirstMiss | src/main/java/ru/ion/app/services/paste/impl/PasteService.java:121-127 | the first miss of a window starts the counter at 1, expiring 10 minutes later, and returns the blob's text |
| RedisPasteService.LaterMiss | src/main/java/ru/ion/app/services/paste/impl/PasteService.java:104-127 | a later miss inside the window raises the counter and keeps its expiry; only a count past 10 also writes the cache |
| RedisPasteService.MissAfterCounted | src/main/java/ru/ion/app/services/paste/impl/PasteService.java:104-127 | the miss that brings the counter from m-1 to m gives the counted state, with the text cached exactly when m exceeds 10 |
| RedisPasteService.NextMissInWindow | src/main/java/ru/ion/app/services/paste/impl/PasteService.java:104-127 | one more miss inside the window extends the counted state by one, and caches from the 11th on |
| RedisPasteService.MissesBelowThresholdDoNotCache | src/main/java/ru/ion/app/services/paste/impl/PasteService.java:104-127 | within one counter window, after m misses with m from 1 to 10 the counter is m with the first miss's expiry, nothing is cached and nothing else changed |
| RedisPasteService.EleventhMissCaches | src/main/java/ru/ion/app/services/paste/impl/PasteService.java:104-127 | the 11th miss inside the window caches the downloaded text, expiring 15 minutes after that miss |
| RedisPasteService.DeleteByKeyOutcome | src/main/java/ru/ion/app/services/paste/impl/PasteService.java:165-173 | an empty key is refused before any store changes; a failed blob deletion rolls the row deletion back; otherwise exactly that row and blob are gone; Redis is never touched |
| RedisPasteService.DeleteThenFindNotFound | src/main/java/ru/ion/app/services/paste/impl/PasteService.java:166-172 | after a successful delete, findByKey is NotFound even though the cache may still hold the text |
| RedisPasteService.DeleteEachAllSucceed | src/main/java/ru/ion/app/services/paste/impl/PasteService.java:176-178 | when every deletion succeeds, the forEach removes exactly the listed rows and blobs |
| RedisPasteService.SweepRemovesExactlyExpired | src/main/java/ru/ion/app/services/paste/impl/PasteService.java:175-179 | with S3 succeeding, deleteExpiredPaste removes exactly the pastes whose end date is strictly before today, keeps every other row and blob as it was and leaves Redis alone |
| RedisPasteService.DeleteEachStopsAtFailure | src/main/java/ru/ion/app/services/paste/impl/PasteService.java:176-178 | the forEach stops at the first failed deletion, after removing the blobs listed before it |
| RedisPasteService.SweepFailureRollsBackRows | src/main/java/ru/ion/app/services/paste/impl/PasteService.java:175-179 | when the f-th blob deletion fails, every row is restored but the blobs of the pastes listed before it stay deleted, leaving rows without blobs |
| RedisPasteService.PasteService.SaveToCloud | src/main/java/ru/ion/app/services/paste/impl/PasteService.java:66-82 | the method writes the row, then uploads, and ends in the state and result of the save transition |
| RedisPasteService.PasteService.DownloadAndReadText | src/main/java/ru/ion/app/services/paste/impl/PasteService.java:139-149 | succeeds exactly when S3 answers and the blob exists, and then returns the blob read back as readFileToString reads it |
| RedisPasteService.PasteService.ShouldCache | src/main/java/ru/ion/app/services/paste/impl/PasteService.java:121-128 | increments and expires the counter in Redis as the shouldCashed transition does, leaving rows and blobs alone |
| RedisPasteService.PasteService.FindByKey | src/main/java/ru/ion/app/services/paste/impl/PasteService.java:96-110 | ends in the state and result of the findByKey transition and keeps the store invariant |
| RedisPasteService.PasteService.DeleteByKey | src/main/java/ru/ion/app/services/paste/impl/PasteService.java:165-173 | removes the row, then the blob, restoring the row when the blob deletion fails, as the deleteByKey transition does |
| RedisPasteService.PasteService.DeleteExpiredPaste | src/main/java/ru/ion/app/services/paste/impl/PasteService.java:175-179 | loops over the listing calling deleteByKey, stops at the first failure and restores the rows, ending where the sweep transition does |
| LegacyPasteService.SaveOutcome | src/main/java/ru/ion/app/services/PasteService.java:56-71 | a failed upload changes nothing, so no row is written; a successful one stores the text and the row {key, createDate = today, endDate} and returns the key |
| LegacyPasteService.SaveStep | src/main/java/ru/ion/app/services/PasteService.java:56-71 | save as a transition: upload the written text first, then save the row {key, createDate = today, endDate} only when the upload completed |
| LegacyPasteService.FindStep | src/main/java/ru/ion/app/services/PasteService.java:83-97 | findByKey as a transition: NotFound without a row, otherwise download the blob and return its text read back with the row's end date |
| LegacyPasteService.DeleteStep | src/main/java/ru/ion/app/services/PasteService.java:113-121 | delete as a transition: an empty key throws; otherwise the row, then the blob, is deleted, and a failed blob deletion rolls the row deletion back |
| LegacyPasteService.SaveKeepsRowsBacked | src/main/java/ru/ion/app/services/PasteService.java:64-66 | when every row has its blob before save, every row still has its blob after it, whatever S3 does |
| LegacyPasteService.FindOutcome | src/main/java/ru/ion/app/services/PasteService.java:83-97 | findByKey changes nothing; it is NotFound if and only if there is no row, succeeds if and only if the row and blob exist and S3 answers, and then returns the blob read back with the row's end date |
| LegacyPasteService.SaveThenFind | src/main/java/ru/ion/app/services/PasteService.java:56-93 | right after a successful save, findByKey returns the text as read back with the submitted end date; exactly the submitted text when it has no '\r' and no trailing '\n' |
| LegacyPasteService.DeleteOutcome | src/main/java/ru/ion/app/services/PasteService.java:113-121 | an empty key is refused and nothing changes; a failed blob deletion is rolled back; otherwise exactly that row and blob are gone |
| LegacyPasteService.DeleteThenFindNotFound | src/main/java/ru/ion/app/services/PasteService.java:113-121 | after a successful delete, findByKey is NotFound |
| LegacyPasteService.PasteService.Save | src/main/java/ru/ion/app/services/PasteService.java:56-71 | uploads, then saves the row only after the upload completed, ending in the state and result of the save transition |
| LegacyPasteService.PasteService.FindByKey | src/main/java/ru/ion/app/services/PasteService.java:83-97 | returns what the findByKey transition returns, reading the blob with the readFileToString loop and changing nothing |
| LegacyPasteService.PasteService.Delete | src/main/java/ru/ion/app/services/PasteService.java:113-121 | removes the row, then the blob, restoring the row when the blob deletion fails |
| SaveOrdering.FailedUploadOutcomes | src/main/java/ru/ion/app/services/paste/impl/PasteService.java:73-76 | after a failed upload of a new key, the newer service holds a row with no blob and findByKey fails with a storage error, while the older one changed nothing and findByKey is NotFound |
| SaveOrdering.SuccessfulSavesAgree | src/main/java/ru/ion/app/services/PasteService.java:64-66 | when the upload succeeds, both write orders end in the same rows and blobs and return the same key |
| SaveOrdering.DeletesAgree | src/main/java/ru/ion/app/services/PasteService.java:113-121 | deleteByKey and the older delete make the same change to rows and blobs with the same outcome, whatever S3 does |
| SaveOrdering.CacheIsTransparent | src/main/java/ru/ion/app/services/paste/impl/PasteService.java:96-109 | while the cache is coherent and S3 answers, the newer findByKey returns what the older one returns, unless the cache serves a text whose blob is gone; neither changes rows or blobs |

## Left out

- File I/O: `writeStringToFile` is the identity from text to file content, and the
  temporary files (`Files.createTempFile`, `deleteIfExists`) are not modelled. The
  platform charset and its encoding are not modelled either: texts are sequences of
  characters.
- A read error inside `readFileToString` is modelled only in `TextFile.ReadFileToString`,
  as the index of the failing `readLine`. The message it prints to `System.err` is not
  modelled. Both services read a downloaded blob in full.
- Null references are not modelled: a null key is treated like the empty key. A null from
  Redis `increment` is not modelled either, so the counter always has a value.
- Concurrency is not modelled. This covers the asynchronous S3 futures and their `join()`,
  two callers racing on the same key, and the atomicity of Redis INCR. Operations run one
  after another.
- Failures of the database and of Redis are not modelled; only S3 calls can fail, through
  the `s3Ok` parameters. So a row save that fails after the older service's upload
  succeeded is not modelled.
- The metadata table is a map from key to row. A second row with an existing key
  overwrites the first, whereas the database would hold both; `KeyGeneration.KeyCollision`
  says when keys collide.
- `SecureRandom`, `MessageDigest` (SHA-256) and the clocks are foreign calls. The digest,
  the date-time of key generation, today's date and the minute clock for Redis expiry are
  independent parameters, and nothing links them.
- The timestamp formatter covers years 1 to 9999 only. `yyyy` prints the year of era, so
  years 0 and below print without a sign (year 0 prints as `0001`, like year 1), and years
  above 9999 print with a leading `+` and more digits.
- Redis keeps counters as strings. The model keeps texts and counters apart; the store
  invariant shows the two never share a key.
- `PasteScheduler` only triggers `deleteExpiredPaste` on a cron schedule; the body is
  modelled directly. The rows `findByEndDateBefore(today)` returns are a parameter, required
  to list each expired key once.
- `ru.ion.app.services.textFile.impl.TextFileService`, which the newer service imports, is
  not part of this model. Both services read with `services/TextFileService.java`.
- The `KeyGenerationService` the older service imports from `ru.ion.app.services` is not
  part of this model. Its `save` takes the generated key as a parameter.
- The `services/S3Service.java` that the older service would bind to has other signatures.
  Both services use the `s3/impl` S3 model.
- RedisPasteService.MissesBelowThresholdDoNotCache: every download succeeds, and the window
  starts with no counter and no cached text; the gate itself does not need this.
- RedisPasteService.EleventhMissCaches: the same narrower precondition.
- RedisPasteService.SaveToCloudOrdering: requires that the new key has no blob and no Redis
  entry yet. With a leftover blob, a failed upload would leave the old blob in place; with a
  live cache entry, findByKey would serve the cached text instead of failing.
- RedisPasteService.SaveThenFind: requires that no Redis entry sits under the new key. A
  live stale entry would be served instead of the new text.
- SaveOrdering.FailedUploadOutcomes: requires that the new key has no row, no blob and no
  Redis entry yet, for the same reasons as `SaveToCloudOrdering`.
- RedisPasteService.SaveToCloudKeepsCacheCoherent: requires that no cache entry sits under
  the new key. A stale entry left by a deleted paste with the same key would be served
  instead of the new text.
