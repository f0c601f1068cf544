/** Optional values and results with errors, as the bucket operations return them. */
module Wrappers {

  /** A possibly absent value: `None` stands for the source's `null`. */
  datatype Option<T> = None | Some(value: T)

  /** The outcome of an operation that can throw. */
  datatype Result<T, E> = Success(value: T) | Failure(error: E)

  /**
   * The exceptions the map throws:
   *  - DuplicateKey: ArgumentException(DuplicateKey) from Add of a present
   *    key with a different value;
   *  - KeyNotFound: KeyNotFoundException from the indexer;
   *  - InvalidOperation: InvalidOperationException from the two-bucket
   *    HashBucket constructor when no hash roll separates the two hashes.
   */
  datatype Error = DuplicateKey | KeyNotFound | InvalidOperation
}
