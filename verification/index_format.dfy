/** The on-disk layout of the .forward and .inverted files, which
    Indexer::save_to_file (src/indexer.cpp:218-278) writes and
    IndexLoader::load_forward_index / load_inverted_index
    (src/searcher.h:130-207) read back, and the header of the .meta file
    (src/searcher.h:116-128).

    Integers are stored little-endian, as fwrite stores them on the x86-64
    targets of the source. Every decoder takes the unread bytes and returns
    the value with the bytes after it, or None when the bytes run out, as an
    fread that comes back short does. */
module IndexFormat {
  import opened Bytes
  import opened Wrappers
  import opened IndexTypes

  /** 256^k: one more than the largest value k bytes hold. */
  function Radix(k: nat): (r: nat)
    ensures r > 0
  {
    if k == 0 then 1 else 0x100 * Radix(k - 1)
  }

  lemma RadixValues()
    ensures Radix(2) == U16_MODULUS && Radix(4) == U32_MODULUS
  {
    assert Radix(1) == 0x100;
    assert Radix(2) == 0x1_0000;
    assert Radix(3) == 0x100_0000;
  }

  /** The value of bytes stored least significant first. */
  function LittleEndian(bs: seq<byte>): (r: nat)
    ensures r < Radix(|bs|)
  {
    if bs == [] then 0 else bs[0] as int + 0x100 * LittleEndian(bs[1..])
  }

  /** The k low bytes of n, least significant first: how fwrite lays out an
      integer on the little-endian machines the source targets. */
  function ToLittleEndian(n: nat, k: nat): (r: seq<byte>)
    ensures |r| == k
  {
    if k == 0 then [] else [(n % 0x100) as char] + ToLittleEndian(n / 0x100, k - 1)
  }

  lemma DivMod256(b: nat, m: nat)
    requires b < 0x100
    ensures (b + 0x100 * m) % 0x100 == b && (b + 0x100 * m) / 0x100 == m
  {
  }

  /** Reading back k bytes written from a value below 256^k gives the value. */
  lemma {:induction false} LittleEndianOfEncoded(n: nat, k: nat)
    requires n < Radix(k)
    ensures LittleEndian(ToLittleEndian(n, k)) == n
  {
    if k > 0 {
      var e := ToLittleEndian(n, k);
      assert e[1..] == ToLittleEndian(n / 0x100, k - 1);
      assert n / 0x100 < Radix(k - 1);
      LittleEndianOfEncoded(n / 0x100, k - 1);
    }
  }

  /** Writing back the value of some bytes gives the same bytes. */
  lemma {:induction false} EncodedOfLittleEndian(bs: seq<byte>)
    ensures ToLittleEndian(LittleEndian(bs), |bs|) == bs
  {
    if bs != [] {
      EncodedOfLittleEndian(bs[1..]);
      DivMod256(bs[0] as int, LittleEndian(bs[1..]));
      assert bs == [bs[0]] + bs[1..];
    }
  }

  function LE16(n: u16): (r: seq<byte>)
    ensures |r| == 2
  {
    ToLittleEndian(n, 2)
  }

  function LE32(n: u32): (r: seq<byte>)
    ensures |r| == 4
  {
    ToLittleEndian(n, 4)
  }

  /** fread of a uint16: None when fewer than 2 bytes are left. */
  function ReadU16(s: seq<byte>): Option<(u16, seq<byte>)>
  {
    if |s| < 2 then None
    else
      RadixValues();
      Some((LittleEndian(s[..2]), s[2..]))
  }

  /** fread of a uint32: None when fewer than 4 bytes are left. */
  function ReadU32(s: seq<byte>): Option<(u32, seq<byte>)>
  {
    if |s| < 4 then None
    else
      RadixValues();
      Some((LittleEndian(s[..4]), s[4..]))
  }

  function ReadBytes(s: seq<byte>, n: nat): Option<(seq<byte>, seq<byte>)>
  {
    if |s| < n then None else Some((s[..n], s[n..]))
  }

  lemma ReadU16Encoded(n: u16, rest: seq<byte>)
    ensures ReadU16(LE16(n) + rest) == Some((n, rest))
  {
    var s := LE16(n) + rest;
    assert s[..2] == LE16(n) && s[2..] == rest;
    RadixValues();
    LittleEndianOfEncoded(n, 2);
  }

  lemma ReadU32Encoded(n: u32, rest: seq<byte>)
    ensures ReadU32(LE32(n) + rest) == Some((n, rest))
  {
    var s := LE32(n) + rest;
    assert s[..4] == LE32(n) && s[4..] == rest;
    RadixValues();
    LittleEndianOfEncoded(n, 4);
  }

  lemma ReadBytesEncoded(b: seq<byte>, rest: seq<byte>)
    ensures ReadBytes(b + rest, |b|) == Some((b, rest))
  {
    assert (b + rest)[..|b|] == b && (b + rest)[|b|..] == rest;
  }

  /** Whatever ReadU16 accepts is the encoding of the value it returns. */
  lemma ReadU16Inverse(s: seq<byte>)
    requires ReadU16(s).Some?
    ensures s == LE16(ReadU16(s).value.0) + ReadU16(s).value.1
  {
    EncodedOfLittleEndian(s[..2]);
    assert s == s[..2] + s[2..];
  }

  /** Whatever ReadU32 accepts is the encoding of the value it returns. */
  lemma ReadU32Inverse(s: seq<byte>)
    requires ReadU32(s).Some?
    ensures s == LE32(ReadU32(s).value.0) + ReadU32(s).value.1
  {
    EncodedOfLittleEndian(s[..4]);
    assert s == s[..4] + s[4..];
  }

  lemma SplitAt<T>(s: seq<T>, k: nat)
    requires k <= |s|
    ensures s == s[..k] + s[k..]
  {
  }

  lemma ConcatAssoc<T>(a: seq<T>, b: seq<T>, c: seq<T>)
    ensures (a + b) + c == a + (b + c)
  {
  }

  /** A length-prefixed byte string: a uint16 length, then that many bytes. */
  function LengthPrefixed(n: u16, b: seq<byte>): seq<byte>
    requires n <= |b|
  {
    LE16(n) + b[..n]
  }

  function ReadLengthPrefixed(s: seq<byte>): Option<(u16, seq<byte>, seq<byte>)>
  {
    match ReadU16(s)
    case None => None
    case Some((n, s1)) =>
      match ReadBytes(s1, n)
      case None => None
      case Some((b, s2)) => Some((n, b, s2))
  }

  lemma LengthPrefixedRoundTrip(n: u16, b: seq<byte>, rest: seq<byte>)
    requires n <= |b|
    ensures ReadLengthPrefixed(LengthPrefixed(n, b) + rest) == Some((n, b[..n], rest))
  {
    assert LengthPrefixed(n, b) + rest == LE16(n) + (b[..n] + rest);
    ReadU16Encoded(n, b[..n] + rest);
    ReadBytesEncoded(b[..n], rest);
  }

  lemma LengthPrefixedInverse(s: seq<byte>)
    requires ReadLengthPrefixed(s).Some?
    ensures var (n, b, rest) := ReadLengthPrefixed(s).value;
      |b| == n && s == LengthPrefixed(n, b) + rest
  {
    ReadU16Inverse(s);
    var (n, s1) := ReadU16(s).value;
    assert s1 == s1[..n] + s1[n..];
    var b := s1[..n];
    assert b[..n] == b;
  }

  /** Three uint32 values in a row. */
  function Counts(a: u32, b: u32, c: u32): seq<byte>
  {
    LE32(a) + (LE32(b) + LE32(c))
  }

  function ReadCounts(s: seq<byte>): Option<(u32, u32, u32, seq<byte>)>
  {
    match ReadU32(s)
    case None => None
    case Some((a, s1)) =>
      match ReadU32(s1)
      case None => None
      case Some((b, s2)) =>
        match ReadU32(s2)
        case None => None
        case Some((c, s3)) => Some((a, b, c, s3))
  }

  lemma CountsRoundTrip(a: u32, b: u32, c: u32, rest: seq<byte>)
    ensures ReadCounts(Counts(a, b, c) + rest) == Some((a, b, c, rest))
  {
    assert Counts(a, b, c) + rest == LE32(a) + (LE32(b) + (LE32(c) + rest));
    ReadU32Encoded(a, LE32(b) + (LE32(c) + rest));
    ReadU32Encoded(b, LE32(c) + rest);
    ReadU32Encoded(c, rest);
  }

  lemma CountsInverse(s: seq<byte>)
    requires ReadCounts(s).Some?
    ensures var (a, b, c, rest) := ReadCounts(s).value; s == Counts(a, b, c) + rest
  {
    ReadU32Inverse(s);
    var s1 := ReadU32(s).value.1;
    ReadU32Inverse(s1);
    ReadU32Inverse(ReadU32(s1).value.1);
  }

  // -------------------------------------------------------- records in a row

  /** `n` records in a row, each taken by `read`: the record loops of
      load_forward_index and load_inverted_index, and the fread of a term's
      doc ids. None as soon as one of them comes back short. */
  function DecodeMany<T>(read: seq<byte> -> Option<(T, seq<byte>)>, s: seq<byte>, n: nat): Option<(seq<T>, seq<byte>)>
    decreases n
  {
    if n == 0 then Some(([], s))
    else
      match read(s)
      case None => None
      case Some((x, s1)) =>
        match DecodeMany(read, s1, n - 1)
        case None => None
        case Some((xs, s2)) => Some(([x] + xs, s2))
  }

  /** The records such a loop has filled in when it stops: all n of them, or
      those before the first short read. */
  function ReadMany<T>(read: seq<byte> -> Option<(T, seq<byte>)>, s: seq<byte>, n: nat): seq<T>
    decreases n
  {
    if n == 0 then []
    else
      match read(s)
      case None => []
      case Some((x, s1)) => [x] + ReadMany(read, s1, n - 1)
  }

  /** The loop fills in all n records exactly when the whole run decodes, and
      then it holds the decoded records; otherwise it stops short of n. */
  lemma {:induction false} ReadManyDecoded<T>(read: seq<byte> -> Option<(T, seq<byte>)>, s: seq<byte>, n: nat)
    ensures |ReadMany(read, s, n)| <= n
    ensures DecodeMany(read, s, n).Some? <==> |ReadMany(read, s, n)| == n
    ensures DecodeMany(read, s, n).Some? ==> DecodeMany(read, s, n).value.0 == ReadMany(read, s, n)
    decreases n
  {
    if n > 0 && read(s).Some? {
      ReadManyDecoded(read, read(s).value.1, n - 1);
    }
  }

  // ---------------------------------------------------------------- documents

  /** A document record the writer can store: its lengths do not exceed the
      bytes it points to. */
  predicate Storable(d: Document)
  {
    d.urlLength <= |d.url| && d.titleLength <= |d.title|
  }

  /** What a stored record reads back as: only urlLength and titleLength
      bytes of the url and title are written. */
  function Stored(d: Document): (r: Document)
    requires Storable(d)
    ensures |r.url| == r.urlLength && |r.title| == r.titleLength
    ensures |d.url| < U16_MODULUS && d.urlLength == |d.url| && |d.title| < U16_MODULUS && d.titleLength == |d.title|
            ==> r == d
  {
    d.(url := d.url[..d.urlLength], title := d.title[..d.titleLength])
  }

  /** One record of the .forward file (src/indexer.cpp:230-237). */
  function EncodeDocument(d: Document): seq<byte>
    requires Storable(d)
  {
    LE32(d.docId) + (LengthPrefixed(d.urlLength, d.url)
    + (LengthPrefixed(d.titleLength, d.title) + Counts(d.contentLength, d.tokenCount, d.uniqueTerms)))
  }

  /** One iteration of load_forward_index's loop (src/searcher.h:147-161). */
  function DecodeDocument(s: seq<byte>): (r: Option<(Document, seq<byte>)>)
  {
    match ReadU32(s)
    case None => None
    case Some((docId, s1)) =>
      match ReadLengthPrefixed(s1)
      case None => None
      case Some((urlLength, url, s2)) =>
        match ReadLengthPrefixed(s2)
        case None => None
        case Some((titleLength, title, s3)) =>
          match ReadCounts(s3)
          case None => None
          case Some((contentLength, tokenCount, uniqueTerms, s4)) =>
            Some((Document(docId, url, urlLength, title, titleLength, contentLength, tokenCount, uniqueTerms), s4))
  }

  /** A stored record reads back as Stored(d), leaving the bytes after it. */
  lemma DocumentRoundTrip(d: Document, rest: seq<byte>)
    requires Storable(d)
    ensures DecodeDocument(EncodeDocument(d) + rest) == Some((Stored(d), rest))
  {
    var counts := Counts(d.contentLength, d.tokenCount, d.uniqueTerms);
    var s3 := counts + rest;
    var s2 := LengthPrefixed(d.titleLength, d.title) + s3;
    var s1 := LengthPrefixed(d.urlLength, d.url) + s2;
    assert EncodeDocument(d) + rest == LE32(d.docId) + s1;
    ReadU32Encoded(d.docId, s1);
    LengthPrefixedRoundTrip(d.urlLength, d.url, s2);
    LengthPrefixedRoundTrip(d.titleLength, d.title, s3);
    CountsRoundTrip(d.contentLength, d.tokenCount, d.uniqueTerms, rest);
  }

  /** Whatever DecodeDocument accepts is a stored record followed by the bytes
      it leaves. */
  lemma DocumentInverse(s: seq<byte>)
    requires DecodeDocument(s).Some?
    ensures Storable(DecodeDocument(s).value.0)
    ensures Stored(DecodeDocument(s).value.0) == DecodeDocument(s).value.0
    ensures s == EncodeDocument(DecodeDocument(s).value.0) + DecodeDocument(s).value.1
  {
    ReadU32Inverse(s);
    var s1 := ReadU32(s).value.1;
    LengthPrefixedInverse(s1);
    var s2 := ReadLengthPrefixed(s1).value.2;
    LengthPrefixedInverse(s2);
    CountsInverse(ReadLengthPrefixed(s2).value.2);
    var (d, rest) := DecodeDocument(s).value;
    assert d.url[..d.urlLength] == d.url && d.title[..d.titleLength] == d.title;
  }

  /** A stored record is never a proper prefix of another: decoding tells
      where it ends. */
  lemma DocumentPrefixFree(d1: Document, r1: seq<byte>, d2: Document, r2: seq<byte>)
    requires Storable(d1) && Storable(d2)
    requires EncodeDocument(d1) + r1 == EncodeDocument(d2) + r2
    ensures r1 == r2
  {
    DocumentRoundTrip(d1, r1);
    DocumentRoundTrip(d2, r2);
  }

  /** Every proper prefix of a stored record is rejected as truncated. */
  lemma DocumentTruncated(d: Document, k: nat)
    requires Storable(d) && k < |EncodeDocument(d)|
    ensures DecodeDocument(EncodeDocument(d)[..k]) == None
  {
    var e := EncodeDocument(d);
    var t := e[..k];
    if DecodeDocument(t).Some? {
      DocumentInverse(t);
      var d' := DecodeDocument(t).value.0;
      var r := DecodeDocument(t).value.1;
      var ed := EncodeDocument(d');
      assert t == ed + r;
      SplitAt(e, k);
      ConcatAssoc(ed, r, e[k..]);
      assert e == EncodeDocument(d) + [];
      DocumentPrefixFree(d', r + e[k..], d, []);
    }
  }

  // ---------------------------------------------------------- the .forward file

  predicate AllStorable(ds: seq<Document>)
  {
    forall i | 0 <= i < |ds| :: Storable(ds[i])
  }

  function StoredAll(ds: seq<Document>): (r: seq<Document>)
    requires AllStorable(ds)
    ensures |r| == |ds| && forall i | 0 <= i < |ds| :: r[i] == Stored(ds[i])
  {
    seq(|ds|, i requires 0 <= i < |ds| => Stored(ds[i]))
  }

  lemma StorableCons(d: Document, ds: seq<Document>)
    requires Storable(d) && AllStorable(ds)
    ensures AllStorable([d] + ds)
    ensures StoredAll([d] + ds) == [Stored(d)] + StoredAll(ds)
  {
  }

  function EncodeDocuments(ds: seq<Document>): seq<byte>
    requires AllStorable(ds)
  {
    if ds == [] then [] else EncodeDocument(ds[0]) + EncodeDocuments(ds[1..])
  }

  /** The records of one more document follow those of the earlier ones. */
  lemma {:induction false} EncodeDocumentsSnoc(ds: seq<Document>, d: Document)
    requires AllStorable(ds) && Storable(d)
    ensures AllStorable(ds + [d])
    ensures EncodeDocuments(ds + [d]) == EncodeDocuments(ds) + EncodeDocument(d)
    decreases |ds|
  {
    if ds != [] {
      assert (ds + [d])[1..] == ds[1..] + [d];
      EncodeDocumentsSnoc(ds[1..], d);
      ConcatAssoc(EncodeDocument(ds[0]), EncodeDocuments(ds[1..]), EncodeDocument(d));
    } else {
      assert EncodeDocuments([d]) == EncodeDocument(d) + EncodeDocuments([]);
    }
  }

  lemma {:induction false} DocumentsRoundTrip(ds: seq<Document>, rest: seq<byte>)
    requires AllStorable(ds)
    ensures DecodeMany(DecodeDocument, EncodeDocuments(ds) + rest, |ds|) == Some((StoredAll(ds), rest))
  {
    if ds != [] {
      var d, tl := ds[0], ds[1..];
      assert ds == [d] + tl;
      assert AllStorable(tl);
      var tail := EncodeDocuments(tl) + rest;
      var s := EncodeDocuments(ds) + rest;
      assert s == EncodeDocument(d) + tail by {
        ConcatAssoc(EncodeDocument(d), EncodeDocuments(tl), rest);
      }
      assert DecodeDocument(s) == Some((Stored(d), tail)) by {
        DocumentRoundTrip(d, tail);
      }
      DocumentsRoundTrip(tl, rest);
      StorableCons(d, tl);
    } else {
      assert EncodeDocuments(ds) + rest == rest;
      assert StoredAll(ds) == [];
    }
  }

  /** A run of records cut short anywhere is rejected. */
  lemma {:induction false} DocumentsTruncated(ds: seq<Document>, k: nat)
    requires AllStorable(ds) && k < |EncodeDocuments(ds)|
    ensures DecodeMany(DecodeDocument, EncodeDocuments(ds)[..k], |ds|) == None
  {
    var d, tl := ds[0], ds[1..];
    assert AllStorable(tl);
    var ed := EncodeDocument(d);
    var t := EncodeDocuments(ds)[..k];
    if k < |ed| {
      assert t == ed[..k];
      DocumentTruncated(d, k);
    } else {
      var t1 := EncodeDocuments(tl)[..k - |ed|];
      assert t == ed + t1;
      DocumentRoundTrip(d, t1);
      DocumentsTruncated(tl, k - |ed|);
    }
  }

  /** The .forward file (src/indexer.cpp:224-238): the document count twice
      (the second copy fills the reserved word), then one record per document. */
  function EncodeForward(ds: seq<Document>): seq<byte>
    requires AllStorable(ds) && |ds| < U32_MODULUS
  {
    LE32(|ds|) + (LE32(|ds|) + EncodeDocuments(ds))
  }

  /** The two header words of the .forward and .inverted files: the record
      count, then a reserved word the loader reads and ignores. Returns the
      count and the bytes after the header. */
  function CountHeader(s: seq<byte>): Option<(u32, seq<byte>)>
  {
    match ReadU32(s)
    case None => None
    case Some((n, s1)) =>
      match ReadU32(s1)
      case None => None
      case Some((_, s2)) => Some((n, s2))
  }

  lemma CountHeaderEncoded(n: u32, rest: seq<byte>)
    ensures CountHeader(LE32(n) + (LE32(n) + rest)) == Some((n, rest))
  {
    ReadU32Encoded(n, LE32(n) + rest);
    ReadU32Encoded(n, rest);
  }

  /** The first k bytes of a and b together: all of a, then the start of b. */
  lemma SliceAfter(a: seq<byte>, b: seq<byte>, k: nat)
    requires |a| <= k <= |a| + |b|
    ensures (a + b)[..k] == a + b[..k - |a|]
  {
  }

  /** A file cut short inside its count header is rejected; cut after it,
      the header reads back and the body is cut short instead. */
  lemma HeaderTruncated(n: u32, body: seq<byte>, k: nat)
    requires k < 8 + |body|
    ensures k < 8 ==> CountHeader((LE32(n) + (LE32(n) + body))[..k]) == None
    ensures k >= 8 ==> CountHeader((LE32(n) + (LE32(n) + body))[..k]) == Some((n, body[..k - 8]))
  {
    var h := LE32(n);
    var t := (h + (h + body))[..k];
    if k >= 4 {
      SliceAfter(h, h + body, k);
      ReadU32Encoded(n, (h + body)[..k - 4]);
      if k >= 8 {
        SliceAfter(h, body, k - 4);
        ReadU32Encoded(n, body[..k - 8]);
      } else {
        assert |(h + body)[..k - 4]| < 4;
      }
    } else {
      assert |t| < 4;
    }
  }

  /** load_forward_index (src/searcher.h:130-170): the documents, or None when
      the file ends early. Bytes after the last record are not read. */
  function DecodeForward(s: seq<byte>): Option<seq<Document>>
  {
    match CountHeader(s)
    case None => None
    case Some((n, s2)) =>
      match DecodeMany(DecodeDocument, s2, n)
      case None => None
      case Some((ds, _)) => Some(ds)
  }

  /** The loader reads back what the indexer wrote, each url and title cut to
      its stored uint16 length. */
  lemma ForwardRoundTrip(ds: seq<Document>)
    requires AllStorable(ds) && |ds| < U32_MODULUS
    ensures DecodeForward(EncodeForward(ds)) == Some(StoredAll(ds))
  {
    CountHeaderEncoded(|ds|, EncodeDocuments(ds));
    assert EncodeDocuments(ds) == EncodeDocuments(ds) + [];
    DocumentsRoundTrip(ds, []);
  }

  /** A .forward file cut short anywhere is rejected. */
  lemma ForwardTruncated(ds: seq<Document>, k: nat)
    requires AllStorable(ds) && |ds| < U32_MODULUS && k < |EncodeForward(ds)|
    ensures DecodeForward(EncodeForward(ds)[..k]) == None
  {
    HeaderTruncated(|ds|, EncodeDocuments(ds), k);
    if k >= 8 {
      DocumentsTruncated(ds, k - 8);
    }
  }

  // --------------------------------------------------------- the .inverted file

  /** A term record the writer can store. */
  predicate TermStorable(t: Term)
  {
    t.termLength <= |t.term| && |t.docIds| < U32_MODULUS
  }

  /** What a stored term reads back as: termLength bytes of its string. */
  function StoredTerm(t: Term): (r: Term)
    requires TermStorable(t)
    ensures |r.term| == r.termLength && r.docIds == t.docIds
    ensures |t.term| < U16_MODULUS && t.termLength == |t.term| ==> r == t
  {
    t.(term := t.term[..t.termLength])
  }

  function EncodeIds(ids: seq<u32>): seq<byte>
  {
    if ids == [] then [] else LE32(ids[0]) + EncodeIds(ids[1..])
  }

  lemma {:induction false} IdsRoundTrip(ids: seq<u32>, rest: seq<byte>)
    ensures DecodeMany(ReadU32, EncodeIds(ids) + rest, |ids|) == Some((ids, rest))
  {
    if ids != [] {
      var tail := EncodeIds(ids[1..]) + rest;
      ConcatAssoc(LE32(ids[0]), EncodeIds(ids[1..]), rest);
      assert EncodeIds(ids) + rest == LE32(ids[0]) + tail;
      ReadU32Encoded(ids[0], tail);
      IdsRoundTrip(ids[1..], rest);
      assert ids == [ids[0]] + ids[1..];
    } else {
      assert EncodeIds(ids) + rest == rest;
    }
  }

  lemma {:induction false} IdsInverse(s: seq<byte>, n: nat)
    requires DecodeMany(ReadU32, s, n).Some?
    ensures |DecodeMany(ReadU32, s, n).value.0| == n
    ensures s == EncodeIds(DecodeMany(ReadU32, s, n).value.0) + DecodeMany(ReadU32, s, n).value.1
    decreases n
  {
    if n > 0 {
      ReadU32Inverse(s);
      var x := ReadU32(s).value.0;
      var s1 := ReadU32(s).value.1;
      IdsInverse(s1, n - 1);
      var xs := DecodeMany(ReadU32, s, n).value.0;
      assert xs[1..] == DecodeMany(ReadU32, s1, n - 1).value.0;
      ConcatAssoc(LE32(x), EncodeIds(xs[1..]), DecodeMany(ReadU32, s, n).value.1);
    }
  }

  /** One term record of the .inverted file (src/indexer.cpp:266-275): the
      uint16 length and bytes of the term, its document frequency, its ids. */
  function EncodeTerm(t: Term): seq<byte>
    requires TermStorable(t)
  {
    LengthPrefixed(t.termLength, t.term) + (LE32(|t.docIds|) + EncodeIds(t.docIds))
  }

  /** One iteration of load_inverted_index's loop (src/searcher.h:189-198). */
  function DecodeTerm(s: seq<byte>): Option<(Term, seq<byte>)>
  {
    match ReadLengthPrefixed(s)
    case None => None
    case Some((termLength, term, s1)) =>
      match ReadU32(s1)
      case None => None
      case Some((df, s2)) =>
        match DecodeMany(ReadU32, s2, df)
        case None => None
        case Some((ids, s3)) => Some((Term(term, termLength, ids), s3))
  }

  /** A stored term reads back as StoredTerm(t), leaving the bytes after it. */
  lemma TermRoundTrip(t: Term, rest: seq<byte>)
    requires TermStorable(t)
    ensures DecodeTerm(EncodeTerm(t) + rest) == Some((StoredTerm(t), rest))
  {
    var s2 := EncodeIds(t.docIds) + rest;
    var s1 := LE32(|t.docIds|) + s2;
    assert EncodeTerm(t) + rest == LengthPrefixed(t.termLength, t.term) + s1;
    LengthPrefixedRoundTrip(t.termLength, t.term, s1);
    ReadU32Encoded(|t.docIds|, s2);
    IdsRoundTrip(t.docIds, rest);
  }

  /** Whatever DecodeTerm accepts is a stored term followed by the bytes it
      leaves. */
  lemma TermInverse(s: seq<byte>)
    requires DecodeTerm(s).Some?
    ensures TermStorable(DecodeTerm(s).value.0)
    ensures StoredTerm(DecodeTerm(s).value.0) == DecodeTerm(s).value.0
    ensures s == EncodeTerm(DecodeTerm(s).value.0) + DecodeTerm(s).value.1
  {
    LengthPrefixedInverse(s);
    var s1 := ReadLengthPrefixed(s).value.2;
    ReadU32Inverse(s1);
    var df := ReadU32(s1).value.0;
    var s2 := ReadU32(s1).value.1;
    IdsInverse(s2, df);
    var t := DecodeTerm(s).value.0;
    assert t.term[..t.termLength] == t.term;
  }

  /** Every proper prefix of a stored term is rejected as truncated. */
  lemma TermTruncated(t: Term, k: nat)
    requires TermStorable(t) && k < |EncodeTerm(t)|
    ensures DecodeTerm(EncodeTerm(t)[..k]) == None
  {
    var e := EncodeTerm(t);
    var p := e[..k];
    if DecodeTerm(p).Some? {
      TermInverse(p);
      var t' := DecodeTerm(p).value.0;
      var r := DecodeTerm(p).value.1;
      var et := EncodeTerm(t');
      assert p == et + r;
      SplitAt(e, k);
      ConcatAssoc(et, r, e[k..]);
      assert e == EncodeTerm(t) + [];
      TermRoundTrip(t', r + e[k..]);
      TermRoundTrip(t, []);
    }
  }

  predicate AllTermsStorable(ts: seq<Term>)
  {
    forall i | 0 <= i < |ts| :: TermStorable(ts[i])
  }

  function StoredTerms(ts: seq<Term>): (r: seq<Term>)
    requires AllTermsStorable(ts)
    ensures |r| == |ts| && forall i | 0 <= i < |ts| :: r[i] == StoredTerm(ts[i])
  {
    seq(|ts|, i requires 0 <= i < |ts| => StoredTerm(ts[i]))
  }

  lemma TermStorableCons(t: Term, ts: seq<Term>)
    requires TermStorable(t) && AllTermsStorable(ts)
    ensures AllTermsStorable([t] + ts)
    ensures StoredTerms([t] + ts) == [StoredTerm(t)] + StoredTerms(ts)
  {
  }

  function EncodeTerms(ts: seq<Term>): seq<byte>
    requires AllTermsStorable(ts)
  {
    if ts == [] then [] else EncodeTerm(ts[0]) + EncodeTerms(ts[1..])
  }

  /** The record of one more term follows those of the earlier ones. */
  lemma {:induction false} EncodeTermsSnoc(ts: seq<Term>, t: Term)
    requires AllTermsStorable(ts) && TermStorable(t)
    ensures AllTermsStorable(ts + [t])
    ensures EncodeTerms(ts + [t]) == EncodeTerms(ts) + EncodeTerm(t)
    decreases |ts|
  {
    if ts != [] {
      assert (ts + [t])[1..] == ts[1..] + [t];
      EncodeTermsSnoc(ts[1..], t);
      ConcatAssoc(EncodeTerm(ts[0]), EncodeTerms(ts[1..]), EncodeTerm(t));
    } else {
      assert EncodeTerms([t]) == EncodeTerm(t) + EncodeTerms([]);
    }
  }

  lemma {:induction false} TermsRoundTrip(ts: seq<Term>, rest: seq<byte>)
    requires AllTermsStorable(ts)
    ensures DecodeMany(DecodeTerm, EncodeTerms(ts) + rest, |ts|) == Some((StoredTerms(ts), rest))
  {
    if ts != [] {
      var t, tl := ts[0], ts[1..];
      assert ts == [t] + tl;
      assert AllTermsStorable(tl);
      var tail := EncodeTerms(tl) + rest;
      var s := EncodeTerms(ts) + rest;
      assert s == EncodeTerm(t) + tail by {
        ConcatAssoc(EncodeTerm(t), EncodeTerms(tl), rest);
      }
      assert DecodeTerm(s) == Some((StoredTerm(t), tail)) by {
        TermRoundTrip(t, tail);
      }
      TermsRoundTrip(tl, rest);
      TermStorableCons(t, tl);
    } else {
      assert EncodeTerms(ts) + rest == rest;
      assert StoredTerms(ts) == [];
    }
  }

  lemma {:induction false} TermsTruncated(ts: seq<Term>, k: nat)
    requires AllTermsStorable(ts) && k < |EncodeTerms(ts)|
    ensures DecodeMany(DecodeTerm, EncodeTerms(ts)[..k], |ts|) == None
  {
    var t, tl := ts[0], ts[1..];
    assert AllTermsStorable(tl);
    var et := EncodeTerm(t);
    var p := EncodeTerms(ts)[..k];
    if k < |et| {
      assert p == et[..k];
      TermTruncated(t, k);
    } else {
      var p1 := EncodeTerms(tl)[..k - |et|];
      assert p == et + p1;
      TermRoundTrip(t, p1);
      TermsTruncated(tl, k - |et|);
    }
  }

  /** The .inverted file (src/indexer.cpp:248-275): the term count twice, then
      one record per term. */
  function EncodeInverted(ts: seq<Term>): seq<byte>
    requires AllTermsStorable(ts) && |ts| < U32_MODULUS
  {
    LE32(|ts|) + (LE32(|ts|) + EncodeTerms(ts))
  }

  /** load_inverted_index (src/searcher.h:172-207). */
  function DecodeInverted(s: seq<byte>): Option<seq<Term>>
  {
    match CountHeader(s)
    case None => None
    case Some((n, s2)) =>
      match DecodeMany(DecodeTerm, s2, n)
      case None => None
      case Some((ts, _)) => Some(ts)
  }

  lemma InvertedRoundTrip(ts: seq<Term>)
    requires AllTermsStorable(ts) && |ts| < U32_MODULUS
    ensures DecodeInverted(EncodeInverted(ts)) == Some(StoredTerms(ts))
  {
    CountHeaderEncoded(|ts|, EncodeTerms(ts));
    assert EncodeTerms(ts) == EncodeTerms(ts) + [];
    TermsRoundTrip(ts, []);
  }

  lemma InvertedTruncated(ts: seq<Term>, k: nat)
    requires AllTermsStorable(ts) && |ts| < U32_MODULUS && k < |EncodeInverted(ts)|
    ensures DecodeInverted(EncodeInverted(ts)[..k]) == None
  {
    HeaderTruncated(|ts|, EncodeTerms(ts), k);
    if k >= 8 {
      TermsTruncated(ts, k - 8);
    }
  }

  // ------------------------------------------------------------ the .meta file

  /** sizeof(IndexMetadata) on x86-64: the ten fixed fields fill 40 bytes
      with no padding, then come the 256 reserved bytes. */
  const METADATA_SIZE: nat := 296

  /** The fwrite of the whole IndexMetadata struct (src/indexer.cpp:215):
      magic at offset 0, version 4, flags 6, total_documents 8,
      total_unique_terms 12, timestamp 16, the four offset and size words
      24..40, reserved 40..296. */
  function EncodeMetadata(m: IndexMetadata): (r: seq<byte>)
    requires |m.reserved| == 256
    ensures |r| == METADATA_SIZE
  {
    LE32(m.magic) + LE16(m.version) + LE16(m.flags)
    + LE32(m.totalDocuments) + LE32(m.totalUniqueTerms) + ToLittleEndian(m.timestamp, 8)
    + LE32(m.forwardOffset) + LE32(m.forwardSize) + LE32(m.invertedOffset) + LE32(m.invertedSize)
    + m.reserved
  }

  function U16At(s: seq<byte>, i: nat): u16
    requires i + 2 <= |s|
  {
    ReadU16(s[i..]).value.0
  }

  function U32At(s: seq<byte>, i: nat): u32
    requires i + 4 <= |s|
  {
    ReadU32(s[i..]).value.0
  }

  /** The fread of the struct (src/searcher.h:120) from a file of at least
      METADATA_SIZE bytes; a shorter file is a failed read. */
  function DecodeMetadata(s: seq<byte>): (m: IndexMetadata)
    requires |s| >= METADATA_SIZE
    ensures |m.reserved| == 256
  {
    RadixValues64();
    IndexMetadata(
      U32At(s, 0), U16At(s, 4), U16At(s, 6), U32At(s, 8), U32At(s, 12),
      LittleEndian(s[16..24]),
      U32At(s, 24), U32At(s, 28), U32At(s, 32), U32At(s, 36),
      s[40..296])
  }

  lemma RadixValues64()
    ensures Radix(8) == U64_MODULUS
  {
    RadixValues();
    assert Radix(8) == 0x100 * (0x100 * (0x100 * (0x100 * Radix(4))));
  }

  /** The loader reads back the header the indexer wrote, field for field. */
  lemma MetadataRoundTrip(m: IndexMetadata, rest: seq<byte>)
    requires |m.reserved| == 256
    ensures DecodeMetadata(EncodeMetadata(m) + rest) == m
  {
    var s := EncodeMetadata(m) + rest;
    RadixValues64();
    assert s[0..4] == LE32(m.magic);
    assert s[4..6] == LE16(m.version);
    assert s[6..8] == LE16(m.flags);
    assert s[8..12] == LE32(m.totalDocuments);
    assert s[12..16] == LE32(m.totalUniqueTerms);
    assert s[16..24] == ToLittleEndian(m.timestamp, 8);
    assert s[24..28] == LE32(m.forwardOffset);
    assert s[28..32] == LE32(m.forwardSize);
    assert s[32..36] == LE32(m.invertedOffset);
    assert s[36..40] == LE32(m.invertedSize);
    assert s[40..296] == m.reserved;
    FieldAt32(s, 0, m.magic);
    FieldAt16(s, 4, m.version);
    FieldAt16(s, 6, m.flags);
    FieldAt32(s, 8, m.totalDocuments);
    FieldAt32(s, 12, m.totalUniqueTerms);
    FieldAt32(s, 24, m.forwardOffset);
    FieldAt32(s, 28, m.forwardSize);
    FieldAt32(s, 32, m.invertedOffset);
    FieldAt32(s, 36, m.invertedSize);
    LittleEndianOfEncoded(m.timestamp, 8);
  }

  lemma FieldAt16(s: seq<byte>, i: nat, n: u16)
    requires i + 2 <= |s| && s[i..i + 2] == LE16(n)
    ensures U16At(s, i) == n
  {
    assert s[i..] == LE16(n) + s[i + 2..];
    ReadU16Encoded(n, s[i + 2..]);
  }

  lemma FieldAt32(s: seq<byte>, i: nat, n: u32)
    requires i + 4 <= |s| && s[i..i + 4] == LE32(n)
    ensures U32At(s, i) == n
  {
    assert s[i..] == LE32(n) + s[i + 4..];
    ReadU32Encoded(n, s[i + 4..]);
  }
}
