/** Optional results and, for the exceptions of the source, results that may have failed. */
module Results {
  datatype Option<+T> = None | Some(value: T)

  datatype Result<+T> = Success(value: T) | Failure(error: Error)

  datatype Error = TooSmall | BadMagic | BadFooterOffsets | CorruptIndex | CorruptBlock | NoSuchFile | NumberOutOfRange
}
