/** The records of src/indexer.h that the indexer writes and the loader reads:
    the fixed-width integers, Document and Term. */
module IndexTypes {
  import opened Bytes

  /** INDEX_MAGIC (src/indexer.h:9), the bytes "XEDI" read as a little-endian uint32. */
  const INDEX_MAGIC: nat := 0x49444558

  /** INDEX_VERSION and FLAG_STEMMED (src/indexer.h:10-12). */
  const INDEX_VERSION: nat := 1
  const FLAG_STEMMED: nat := 2

  const U16_MODULUS: nat := 0x1_0000
  const U32_MODULUS: nat := 0x1_0000_0000
  const U64_MODULUS: nat := 0x1_0000_0000_0000_0000

  type u16 = n: nat | n < 0x1_0000
  type u32 = n: nat | n < 0x1_0000_0000
  type u64 = n: nat | n < 0x1_0000_0000_0000_0000

  /** IndexMetadata (src/indexer.h:21-33), the header of the .meta file.
      `reserved` holds the trailing 256 bytes. */
  datatype IndexMetadata = IndexMetadata(
    magic: u32,
    version: u16,
    flags: u16,
    totalDocuments: u32,
    totalUniqueTerms: u32,
    timestamp: u64,
    forwardOffset: u32,
    forwardSize: u32,
    invertedOffset: u32,
    invertedSize: u32,
    reserved: seq<byte>)

  /** A document record (src/indexer.h:35-44). `url` and `title` hold the bytes
      the record points to; `urlLength` and `titleLength` are the uint16
      lengths stored beside them, which the on-disk layout uses. */
  datatype Document = Document(
    docId: u32,
    url: seq<byte>,
    urlLength: u16,
    title: seq<byte>,
    titleLength: u16,
    contentLength: u32,
    tokenCount: u32,
    uniqueTerms: u32)

  /** A term record (src/indexer.h:46-51); the document frequency is the
      number of doc ids. */
  datatype Term = Term(term: seq<byte>, termLength: u16, docIds: seq<u32>)

  /** The C string a NUL-terminated buffer holds: its bytes before the first NUL. */
  function CString(s: seq<byte>): (r: seq<cchar>)
    ensures |r| <= |s| && r == s[..|r|]
    ensures |r| < |s| ==> s[|r|] == '\0'
  {
    if s == [] || s[0] == '\0' then [] else [s[0] as cchar] + CString(s[1..])
  }

  /** A buffer with no NUL in it is its own C string. */
  lemma {:induction false} CStringOfCChars(s: seq<cchar>)
    ensures CString(s) == s
  {
    if s != [] {
      CStringOfCChars(s[1..]);
    }
  }
}
