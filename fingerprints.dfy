/** Content fingerprints: what `filemd5` computes for a path in the repository or
    the local directory, and what the remote store reports as an object's
    md5Checksum. */
module Fingerprints {
  import opened Wrappers

  /** The bytes of one file or remote object. */
  type Content = seq<bv8>

  /** A fingerprint is either the sentinel of a file that does not exist (the
      empty string in the program) or the MD5 digest of a content (32 hex
      characters there). The digest is represented by the content it was taken
      of: MD5 is treated as collision-free, so two digests are equal exactly
      when the contents are, and no digest equals the sentinel. */
  datatype Fingerprint = Absent | Md5(digestOf: Content)

  /** The digest of a content, as the remote store reports it for an object. */
  function ContentMd5(c: Content): (fp: Fingerprint)
    ensures fp != Absent
  {
    Md5(c)
  }

  /** The fingerprint of a path; `None` stands for a file that does not exist. */
  function FileMd5(file: Option<Content>): (fp: Fingerprint)
    ensures fp == Absent <==> file == None
  {
    match file
    case None => Absent
    case Some(c) => ContentMd5(c)
  }

  /** Comparing fingerprints is comparing files: two missing files compare equal,
      a missing file never equals an existing one, two existing files compare
      equal exactly when their contents are the same. */
  lemma FileMd5Injective(a: Option<Content>, b: Option<Content>)
    ensures FileMd5(a) == FileMd5(b) <==> a == b
  {
  }
}
