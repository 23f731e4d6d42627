/** IndexLoader of src/searcher.h:10-208: reads the three index files into
    memory and answers term and document lookups for the query evaluator.

    The three files are given as their contents: None stands for a file that
    fopen cannot open. The heap arrays of the source are sequences; the
    pointers find_term and get_document return are indices into them. */
module IndexLoading {
  import opened Bytes
  import opened Wrappers
  import opened IndexTypes
  import opened IndexFormat

  /** load_metadata succeeds: the file opens, holds a whole header, and the
      header starts with INDEX_MAGIC. */
  predicate MetadataAccepted(file: Option<seq<byte>>)
  {
    file.Some? && |file.value| >= METADATA_SIZE && DecodeMetadata(file.value).magic == INDEX_MAGIC
  }

  /** load_forward_index succeeds: the file opens and no read comes back short. */
  predicate ForwardAccepted(file: Option<seq<byte>>)
  {
    file.Some? && DecodeForward(file.value).Some?
  }

  /** load_inverted_index succeeds. */
  predicate InvertedAccepted(file: Option<seq<byte>>)
  {
    file.Some? && DecodeInverted(file.value).Some?
  }

  /** The terms, up to n, in strictly ascending strcmp order, as the indexer
      writes them (src/indexer.cpp:264). */
  predicate TermsSorted(ts: seq<Term>, n: nat)
    requires n <= |ts|
  {
    forall i, j | 0 <= i < j < n :: StrLess(CString(ts[i].term), CString(ts[j].term))
  }

  /** If key sorts before the term at mid, it is none of the terms from mid on. */
  lemma MissAbove(ts: seq<Term>, n: nat, key: seq<byte>, mid: nat)
    requires n <= |ts| && TermsSorted(ts, n) && mid < n
    requires StrLess(key, CString(ts[mid].term))
    ensures forall i | mid <= i < n :: CString(ts[i].term) != key
  {
    forall i | mid <= i < n
      ensures CString(ts[i].term) != key
    {
      if i > mid {
        StrLessTransitive(key, CString(ts[mid].term), CString(ts[i].term));
      }
      StrLessIrreflexive(key);
    }
  }

  /** If key sorts after the term at mid, it is none of the terms up to mid. */
  lemma MissBelow(ts: seq<Term>, n: nat, key: seq<byte>, mid: nat)
    requires n <= |ts| && TermsSorted(ts, n) && mid < n
    requires StrLess(CString(ts[mid].term), key)
    ensures forall i | 0 <= i <= mid :: CString(ts[i].term) != key
  {
    forall i | 0 <= i <= mid
      ensures CString(ts[i].term) != key
    {
      if i < mid {
        StrLessTransitive(CString(ts[i].term), CString(ts[mid].term), key);
      }
      StrLessIrreflexive(key);
    }
  }

  /** The binary search of find_term between `left` and `right` inclusive:
      the entry it lands on whose term equals `key`, if any. */
  function Search(ts: seq<Term>, key: seq<byte>, left: int, right: int): (r: Option<nat>)
    requires 0 <= left && right < |ts|
    ensures r.Some? ==> left <= r.value <= right && CString(ts[r.value].term) == key
    decreases right - left
  {
    if left > right then None
    else
      var mid := left + (right - left) / 2;
      var cmp := StrCmp(key, CString(ts[mid].term));
      if cmp == 0 then Some(mid)
      else if cmp < 0 then Search(ts, key, left, mid - 1)
      else Search(ts, key, mid + 1, right)
  }

  /** find_term over the first n terms: right starts at the int holding the
      uint32 n - 1, which is negative for n = 0 and for n above 2^31. */
  function SearchTerms(ts: seq<Term>, n: u32, key: seq<byte>): (r: Option<nat>)
    requires n <= |ts|
    ensures r.Some? ==> r.value < n && CString(ts[r.value].term) == key
    ensures n > 0x8000_0000 ==> r.None?
  {
    Search(ts, key, 0, LastIndex(n))
  }

  /** A search that finds nothing in a sorted table has passed over every
      entry: those outside [left, right] are known misses, and each step only
      drops entries on the side of mid the key cannot be on. */
  lemma {:induction false} SearchMisses(ts: seq<Term>, n: nat, key: seq<byte>, left: int, right: int)
    requires 0 <= left && right < n <= |ts| && TermsSorted(ts, n)
    requires forall i | 0 <= i < left && i < n :: CString(ts[i].term) != key
    requires forall i | right < i < n && 0 <= i :: CString(ts[i].term) != key
    requires Search(ts, key, left, right).None?
    ensures forall i | 0 <= i < n :: CString(ts[i].term) != key
    decreases right - left
  {
    if left <= right {
      var mid := left + (right - left) / 2;
      var t := CString(ts[mid].term);
      assert key != t;
      if StrLess(key, t) {
        assert Search(ts, key, left, right) == Search(ts, key, left, mid - 1);
        MissAbove(ts, n, key, mid);
        SearchMisses(ts, n, key, left, mid - 1);
      } else {
        assert Search(ts, key, left, right) == Search(ts, key, mid + 1, right);
        StrLessTotal(key, t);
        MissBelow(ts, n, key, mid);
        SearchMisses(ts, n, key, mid + 1, right);
      }
    }
  }

  /** In a strcmp-sorted table of at most 2^31 terms, find_term finds the
      key exactly when some term equals it. */
  lemma SearchTermsComplete(ts: seq<Term>, n: u32, key: seq<byte>)
    requires n <= |ts| && TermsSorted(ts, n) && n <= 0x8000_0000
    ensures SearchTerms(ts, n, key).Some? <==> exists i | 0 <= i < n :: CString(ts[i].term) == key
  {
    if SearchTerms(ts, n, key).None? {
      SearchMisses(ts, n, key, 0, n - 1);
    }
  }

  /** A uint32 converted to a 32-bit int, as x86-64 compilers do: values from
      2^31 up wrap to negative numbers. */
  function Int32(x: u32): (r: int)
    ensures -0x8000_0000 <= r < 0x8000_0000
    ensures x < 0x8000_0000 ==> r == x
    ensures x >= 0x8000_0000 ==> r < 0
  {
    if x < 0x8000_0000 then x else x - U32_MODULUS
  }

  /** `int right = total_unique_terms - 1`: the uint32 difference, which
      wraps to 2^32 - 1 for n = 0, stored in an int. */
  function LastIndex(n: u32): (r: int)
    ensures r == if n <= 0x8000_0000 then n - 1 else n - 1 - U32_MODULUS
  {
    if n == 0 then
      assert (n + 0xFFFF_FFFF) % U32_MODULUS == 0xFFFF_FFFF;
      Int32((n + 0xFFFF_FFFF) % U32_MODULUS)
    else
      assert (n + 0xFFFF_FFFF) % U32_MODULUS == n - 1;
      Int32((n + 0xFFFF_FFFF) % U32_MODULUS)
  }

  /** The header an all-zero memset leaves. */
  function ZeroMetadata(): (m: IndexMetadata)
    ensures m.magic == 0 && m.totalDocuments == 0 && m.totalUniqueTerms == 0
    ensures |m.reserved| == 256
  {
    IndexMetadata(0, 0, 0, 0, 0, 0, 0, 0, 0, 0, seq(256, _ => '\0'))
  }

  class IndexLoader {
    var metadata: IndexMetadata
    var documents: seq<Document>
    var terms: seq<Term>

    /** The constructor (src/searcher.h:17-19): a zeroed header, no arrays. */
    constructor ()
      ensures metadata == ZeroMetadata() && documents == [] && terms == []
    {
      metadata := ZeroMetadata();
      documents := [];
      terms := [];
    }

    /** load (src/searcher.h:42-64): the header, then the forward index, then
        the inverted index, giving up at the first file that fails. */
    method Load(metaFile: Option<seq<byte>>, forwardFile: Option<seq<byte>>, invertedFile: Option<seq<byte>>)
      returns (ok: bool)
      modifies this
      ensures ok <==> MetadataAccepted(metaFile) && ForwardAccepted(forwardFile) && InvertedAccepted(invertedFile)
      ensures ok ==> metadata == DecodeMetadata(metaFile.value)
      ensures ok ==> documents == DecodeForward(forwardFile.value).value
      ensures ok ==> terms == DecodeInverted(invertedFile.value).value
      ensures !MetadataAccepted(metaFile) ==> documents == old(documents) && terms == old(terms)
      ensures MetadataAccepted(metaFile) && !ForwardAccepted(forwardFile) ==> terms == old(terms)
    {
      ok := LoadMetadata(metaFile);
      if !ok {
        return;
      }
      ok := LoadForwardIndex(forwardFile);
      if !ok {
        return;
      }
      ok := LoadInvertedIndex(invertedFile);
    }

    /** find_term (src/searcher.h:66-96): binary search for `key` among the
        first total_unique_terms terms. `right` starts as the uint32
        total_unique_terms - 1 stored in an int. */
    method FindTerm(key: seq<byte>) returns (r: Option<nat>)
      requires metadata.totalUniqueTerms <= |terms|
      ensures r == SearchTerms(terms, metadata.totalUniqueTerms, CString(key))
      ensures r.Some? ==> r.value < metadata.totalUniqueTerms && CString(terms[r.value].term) == CString(key)
    {
      var total := metadata.totalUniqueTerms;
      var k := CString(key);
      var left: int := 0;
      var right: int := LastIndex(total);
      while left <= right
        invariant 0 <= left && right < total
        invariant Search(terms, k, left, right) == SearchTerms(terms, total, k)
        decreases right - left
      {
        var mid := left + (right - left) / 2;
        var cmp := StrCmp(k, CString(terms[mid].term));
        if cmp == 0 {
          return Some(mid);
        } else if cmp < 0 {
          right := mid - 1;
        } else {
          left := mid + 1;
        }
      }
      return None;
    }

    /** get_document (src/searcher.h:98-105): the first of the first
        total_documents records with this id. */
    method GetDocument(docId: u32) returns (r: Option<nat>)
      requires metadata.totalDocuments <= |documents|
      ensures r.Some? ==> r.value < metadata.totalDocuments && documents[r.value].docId == docId
      ensures r.Some? ==> forall j | 0 <= j < r.value :: documents[j].docId != docId
      ensures r.None? ==> forall j | 0 <= j < metadata.totalDocuments :: documents[j].docId != docId
    {
      var i := 0;
      while i < metadata.totalDocuments
        invariant i <= metadata.totalDocuments
        invariant forall j | 0 <= j < i :: documents[j].docId != docId
      {
        if documents[i].docId == docId {
          return Some(i);
        }
        i := i + 1;
      }
      return None;
    }

    /** get_total_documents (src/searcher.h:107-109). */
    function TotalDocuments(): u32
      reads this
    {
      metadata.totalDocuments
    }

    /** get_total_terms (src/searcher.h:111-113). */
    function TotalTerms(): u32
      reads this
    {
      metadata.totalUniqueTerms
    }

    /** load_metadata (src/searcher.h:116-128). A whole header is stored even
        when its magic is wrong; a file that does not open leaves the header
        as it was. A file too short for a whole header has fread fill part
        of it, which C leaves indeterminate, so nothing is said about the
        header then. */
    method LoadMetadata(file: Option<seq<byte>>) returns (ok: bool)
      modifies this
      ensures documents == old(documents) && terms == old(terms)
      ensures ok <==> MetadataAccepted(file)
      ensures file.Some? && |file.value| >= METADATA_SIZE ==> metadata == DecodeMetadata(file.value)
      ensures file.None? ==> metadata == old(metadata)
    {
      if file.None? || |file.value| < METADATA_SIZE {
        return false;
      }
      metadata := DecodeMetadata(file.value);
      ok := metadata.magic == INDEX_MAGIC;
    }

    /** load_forward_index (src/searcher.h:130-170): the two header words,
        then the record loop. A header that cannot be read leaves the
        documents as they were; a short record leaves those read before it. */
    method LoadForwardIndex(file: Option<seq<byte>>) returns (ok: bool)
      modifies this
      ensures metadata == old(metadata) && terms == old(terms)
      ensures ok <==> ForwardAccepted(file)
      ensures ok ==> documents == DecodeForward(file.value).value
      ensures file.Some? && CountHeader(file.value).Some? ==>
        documents == ReadMany(DecodeDocument, CountHeader(file.value).value.1, CountHeader(file.value).value.0)
      ensures file.None? || CountHeader(file.value).None? ==> documents == old(documents)
    {
      if file.None? {
        return false;
      }
      var header := CountHeader(file.value);
      if header.None? {
        return false;
      }
      documents, ok := ReadRecords(DecodeDocument, header.value.1, header.value.0);
    }

    /** load_inverted_index (src/searcher.h:172-207), the same over term
        records. */
    method LoadInvertedIndex(file: Option<seq<byte>>) returns (ok: bool)
      modifies this
      ensures metadata == old(metadata) && documents == old(documents)
      ensures ok <==> InvertedAccepted(file)
      ensures ok ==> terms == DecodeInverted(file.value).value
      ensures file.Some? && CountHeader(file.value).Some? ==>
        terms == ReadMany(DecodeTerm, CountHeader(file.value).value.1, CountHeader(file.value).value.0)
      ensures file.None? || CountHeader(file.value).None? ==> terms == old(terms)
    {
      if file.None? {
        return false;
      }
      var header := CountHeader(file.value);
      if header.None? {
        return false;
      }
      terms, ok := ReadRecords(DecodeTerm, header.value.1, header.value.0);
    }
  }

  /** The record loop of load_forward_index (src/searcher.h:142-163) and
      load_inverted_index (src/searcher.h:184-200): one record per
      iteration, stopping at the first that comes back short. */
  method ReadRecords<T>(read: seq<byte> -> Option<(T, seq<byte>)>, s: seq<byte>, n: nat)
    returns (xs: seq<T>, ok: bool)
    ensures xs == ReadMany(read, s, n)
    ensures ok <==> DecodeMany(read, s, n).Some?
    ensures ok ==> xs == DecodeMany(read, s, n).value.0
  {
    ReadManyDecoded(read, s, n);
    var rest := s;
    xs := [];
    var i: nat := 0;
    while i < n
      invariant i <= n && |xs| == i
      invariant xs + ReadMany(read, rest, n - i) == ReadMany(read, s, n)
    {
      var record := read(rest);
      if record.None? {
        assert xs == ReadMany(read, s, n);
        return xs, false;
      }
      xs := xs + [record.value.0];
      rest := record.value.1;
      i := i + 1;
    }
    assert xs == ReadMany(read, s, n);
    return xs, true;
  }

  /** Files the indexer saved are accepted, and the loader gets back the
      header, every document (url and title cut to their stored lengths) and
      every term. */
  lemma SavedIndexLoads(m: IndexMetadata, ds: seq<Document>, ts: seq<Term>)
    requires |m.reserved| == 256 && m.magic == INDEX_MAGIC
    requires AllStorable(ds) && |ds| < U32_MODULUS
    requires AllTermsStorable(ts) && |ts| < U32_MODULUS
    ensures MetadataAccepted(Some(EncodeMetadata(m)))
    ensures DecodeMetadata(EncodeMetadata(m)) == m
    ensures ForwardAccepted(Some(EncodeForward(ds))) && DecodeForward(EncodeForward(ds)).value == StoredAll(ds)
    ensures InvertedAccepted(Some(EncodeInverted(ts))) && DecodeInverted(EncodeInverted(ts)).value == StoredTerms(ts)
  {
    assert EncodeMetadata(m) == EncodeMetadata(m) + [];
    MetadataRoundTrip(m, []);
    ForwardRoundTrip(ds);
    InvertedRoundTrip(ts);
  }
}
