/** The older PasteService (ru.ion.app.services): the same paste lifecycle over the metadata
    table and the S3 bucket, with no cache and with the opposite write order on save -- the text
    is uploaded first and the row is saved only once the upload has completed.

    As in RedisPasteService, each operation is a pure Step function over the store contents,
    and the class performs it step by step on its fields. */
module LegacyPasteService {
  import opened Common
  import opened Entities
  import opened PasteMapper
  import opened TextFile
  import opened BlobStore

  /** The contents of the two durable stores. */
  datatype Durable = Durable(rows: map<string, Paste>, blobs: Blobs)

  /** The stores after an operation, and what the operation returned or threw. */
  datatype Step<T> = Step(stores: Durable, result: Result<T>)

  /** Rows are filed under their own, non-empty key. */
  predicate WellFormed(d: Durable) {
    forall k :: k in d.rows ==> k != "" && d.rows[k].key == k
  }

  /** save: the text is uploaded under the generated key, then the row {key, createDate =
      today, endDate} is saved; a failed upload throws before the row is saved. */
  function SaveStep(d: Durable, pasteData: PasteData, key: string, today: Date, s3Ok: bool): Step<string>
    requires key != ""
  {
    match Upload(d.blobs, key, WriteStringToFile(pasteData.text), s3Ok)
    case Err(e) => Step(d, Err(e))
    case Ok(blobs) => Step(Durable(d.rows[key := ToPaste(pasteData, key, today)], blobs), Ok(key))
  }

  /** findByKey: NotFound without a row; otherwise the blob is downloaded and read back. */
  function FindStep(d: Durable, key: string, s3Ok: bool): Step<PasteData>
    requires WellFormed(d)
  {
    if key !in d.rows then Step(d, Err(NotFound))
    else
      match Download(d.blobs, key, s3Ok)
      case Err(e) => Step(d, Err(e))
      case Ok(content) => Step(d, Ok(PasteData(ReadBack(content), None, d.rows[key].endDate)))
  }

  /** delete: an empty key is refused; otherwise the row is deleted, then the blob. delete is
      @Transactional, so a failed blob deletion rolls the row deletion back. */
  function DeleteStep(d: Durable, key: string, s3Ok: bool): Step<()> {
    if key == "" then Step(d, Err(InvalidKey))
    else
      match DeleteObject(d.blobs, key, s3Ok)
      case Ok(blobs) => Step(Durable(d.rows - {key}, blobs), Ok(()))
      case Err(e) => Step(d, Err(e))
  }

  // ---------------------------------------------------------------------------------------
  // What each operation promises

  /** save uploads before it writes the row: a failed upload changes nothing, so no row is
      left without its blob; a successful one stores the text and the row {key, createDate =
      today, endDate} and returns the key. */
  lemma SaveOutcome(d: Durable, pasteData: PasteData, key: string, today: Date, s3Ok: bool)
    requires WellFormed(d) && key != ""
    ensures var st := SaveStep(d, pasteData, key, today, s3Ok);
      && WellFormed(st.stores)
      && (!s3Ok ==> st == Step(d, Err(StorageFailure)))
      && (s3Ok ==>
            && st.result == Ok(key)
            && st.stores.rows == d.rows[key := Paste(None, key, today, pasteData.endDate)]
            && st.stores.blobs == d.blobs[key := pasteData.text])
  {
  }

  /** With the upload first, every row the old service writes has its blob: a row without a
      blob can only come from a deletion of the blob. */
  lemma SaveKeepsRowsBacked(d: Durable, pasteData: PasteData, key: string, today: Date, s3Ok: bool)
    requires key != "" && d.rows.Keys <= d.blobs.Keys
    ensures var t := SaveStep(d, pasteData, key, today, s3Ok).stores;
      t.rows.Keys <= t.blobs.Keys
  {
  }

  /** findByKey changes no store. Without a row it is NotFound; with one it returns the text
      read back from the blob and the row's end date, or a storage error when the download
      fails. */
  lemma FindOutcome(d: Durable, key: string, s3Ok: bool)
    requires WellFormed(d)
    ensures var st := FindStep(d, key, s3Ok);
      && st.stores == d
      && (st.result == Err(NotFound) <==> key !in d.rows)
      && (st.result.Ok? <==> key in d.rows && key in d.blobs && s3Ok)
      && (st.result.Ok? ==> st.result.value == PasteData(ReadBack(d.blobs[key]), None, d.rows[key].endDate))
  {
  }

  /** Round trip: right after a successful save, findByKey returns the text as read back from
      the uploaded file and the submitted end date; for text without '\r' and without a
      trailing '\n' that is the submitted text itself. */
  lemma SaveThenFind(d: Durable, pasteData: PasteData, key: string, today: Date)
    requires WellFormed(d) && key != ""
    ensures var t := SaveStep(d, pasteData, key, today, true).stores;
      && WellFormed(t)
      && FindStep(t, key, true).result == Ok(PasteData(ReadBack(pasteData.text), None, pasteData.endDate))
    ensures '\r' !in pasteData.text && (|pasteData.text| > 0 ==> pasteData.text[|pasteData.text| - 1] != '\n') ==>
      FindStep(SaveStep(d, pasteData, key, today, true).stores, key, true).result
      == Ok(PasteData(pasteData.text, None, pasteData.endDate))
  {
    if '\r' !in pasteData.text && (|pasteData.text| > 0 ==> pasteData.text[|pasteData.text| - 1] != '\n') {
      ReadBackOfWrittenText(pasteData.text);
    }
  }

  /** delete: an empty key is refused and nothing changes; a failed blob deletion is rolled
      back; otherwise exactly the row and the blob of the key are gone. */
  lemma DeleteOutcome(d: Durable, key: string, s3Ok: bool)
    requires WellFormed(d)
    ensures var st := DeleteStep(d, key, s3Ok);
      && WellFormed(st.stores)
      && (key == "" ==> st == Step(d, Err(InvalidKey)))
      && (key != "" && !s3Ok ==> st == Step(d, Err(StorageFailure)))
      && (key != "" && s3Ok ==>
            && st.result == Ok(())
            && st.stores.rows.Keys == d.rows.Keys - {key}
            && st.stores.blobs.Keys == d.blobs.Keys - {key}
            && (forall k :: k in st.stores.rows ==> st.stores.rows[k] == d.rows[k])
            && (forall k :: k in st.stores.blobs ==> st.stores.blobs[k] == d.blobs[k]))
  {
  }

  /** After a successful delete, findByKey fails with NotFound. */
  lemma DeleteThenFindNotFound(d: Durable, key: string, s3Ok: bool)
    requires WellFormed(d) && key != ""
    ensures var t := DeleteStep(d, key, true).stores;
      WellFormed(t) && FindStep(t, key, s3Ok) == Step(t, Err(NotFound))
  {
  }

  // ---------------------------------------------------------------------------------------
  // The service, operating on its stores in place

  class PasteService {
    /** pasteRepository: the metadata table. */
    var rows: map<string, Paste>
    /** The S3 bucket. */
    var blobs: Blobs

    function State(): Durable
      reads this
    {
      Durable(rows, blobs)
    }

    predicate Valid()
      reads this
    {
      WellFormed(State())
    }

    constructor ()
      ensures Valid() && State() == Durable(map[], map[])
    {
      rows, blobs := map[], map[];
    }

    /** save(pasteData): key and today stand for the generated key and the date; s3Ok is the
        outcome of the upload. */
    method Save(pasteData: PasteData, key: string, today: Date, s3Ok: bool) returns (r: Result<string>)
      requires Valid() && key != ""
      modifies this
      ensures Valid()
      ensures Step(State(), r) == SaveStep(old(State()), pasteData, key, today, s3Ok)
    {
      var paste := ToPaste(pasteData, key, today);
      var content := WriteStringToFile(pasteData.text);
      var uploaded := Upload(blobs, key, content, s3Ok);
      if uploaded.Err? {
        return Err(uploaded.error);
      }
      blobs := uploaded.value;
      rows := rows[key := paste];  // thenRun: only after the upload has completed
      r := Ok(key);
    }

    /** findByKey(key); s3Ok is the outcome of the download, if one is made. */
    method FindByKey(key: string, s3Ok: bool) returns (r: Result<PasteData>)
      requires Valid()
      ensures r == FindStep(State(), key, s3Ok).result
    {
      if key !in rows {
        return Err(NotFound);
      }
      var paste := rows[key];
      var downloaded := Download(blobs, key, s3Ok);
      if downloaded.Err? {
        return Err(downloaded.error);
      }
      var text := ReadFileToString(downloaded.value, None);
      assert Lines(downloaded.value)[..LinesRead(downloaded.value, None)] == Lines(downloaded.value);
      r := Ok(PasteData(text, None, paste.endDate));
    }

    /** delete(key); s3Ok is the outcome of the blob deletion. */
    method Delete(key: string, s3Ok: bool) returns (r: Result<()>)
      requires Valid()
      modifies this
      ensures Valid()
      ensures Step(State(), r) == DeleteStep(old(State()), key, s3Ok)
    {
      if key == "" {
        return Err(InvalidKey);
      }
      var committed := rows;
      rows := rows - {key};
      var deleted := DeleteObject(blobs, key, s3Ok);
      if deleted.Err? {
        rows := committed;  // the exception rolls the transaction back
        return Err(deleted.error);
      }
      blobs := deleted.value;
      r := Ok(());
    }
  }
}
