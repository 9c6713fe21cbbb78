/** Outcome types shared by the paste services. */
module Common {

  datatype Option<+T> = None | Some(value: T)

  /** The exceptions the services raise, as values:
      NotFound       -- PasteServiceException("Paste with this key not found")
      InvalidKey     -- IllegalArgumentException("key must not be null or empty")
      StorageFailure -- an S3ServiceException surfacing through CompletableFuture.join() */
  datatype Error = NotFound | InvalidKey | StorageFailure

  datatype Result<+T> = Ok(value: T) | Err(error: Error)
}
