/** The error cases of core/src/error.rs that reading directories can produce. */
module IsoErrors {
  datatype IsoError = UnexpectedEof | BadDirRecord | NotFound | PathTraversal | ResourceLimit
}
