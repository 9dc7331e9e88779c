/** Kinds and names of git objects. */
module Objects {
  import opened Octets

  datatype ObjectKind = Commit | Tree | Blob | Tag

  datatype HashAlgo = Sha1 | Sha256

  /** How many bytes an id has. */
  function RawLen(algo: HashAlgo): nat {
    match algo
    case Sha1 => 20
    case Sha256 => 32
  }

  datatype ObjectId = ObjectId(algo: HashAlgo, raw: Bytes) {
    predicate Valid() {
      |raw| == RawLen(algo)
    }
  }
}
