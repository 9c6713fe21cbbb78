/** The S3 bucket as a map from object key to object content, with the calls the services make
    through S3Service. Whether a remote call succeeds is a parameter (s3Ok); a failure surfaces
    as StorageFailure. Every call refuses a null or empty key. */
module BlobStore {
  import opened Common

  type Blobs = map<string, string>

  /** uploadFile(path, key).join(): stores the file content under key. */
  function Upload(b: Blobs, key: string, content: string, s3Ok: bool): (r: Result<Blobs>)
    requires key != ""
    ensures r.Ok? <==> s3Ok
    ensures r.Ok? ==> r.value == b[key := content]
    ensures r.Err? ==> r.error == StorageFailure
  {
    if s3Ok then Ok(b[key := content]) else Err(StorageFailure)
  }

  /** downloadFile(path, key).join(): the object content; a missing object fails like any
      other remote error. */
  function Download(b: Blobs, key: string, s3Ok: bool): (r: Result<string>)
    requires key != ""
    ensures r.Ok? <==> s3Ok && key in b
    ensures r.Ok? ==> r.value == b[key]
    ensures r.Err? ==> r.error == StorageFailure
  {
    if s3Ok && key in b then Ok(b[key]) else Err(StorageFailure)
  }

  /** deleteFile(key).join(): removes the object; deleting a missing object succeeds. */
  function DeleteObject(b: Blobs, key: string, s3Ok: bool): (r: Result<Blobs>)
    requires key != ""
    ensures r.Ok? <==> s3Ok
    ensures r.Ok? ==> r.value.Keys == b.Keys - {key}
    ensures r.Ok? ==> forall k :: k in r.value ==> r.value[k] == b[k]
    ensures r.Err? ==> r.error == StorageFailure
  {
    if s3Ok then Ok(b - {key}) else Err(StorageFailure)
  }
}
