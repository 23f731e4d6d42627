# A verified model of a Turkish Wikipedia Boolean search engine

The system crawls Turkish Wikipedia into a document collection, exports
the collection as a TSV file, builds an inverted index from it in C++
and answers Boolean queries over that index. This project models the
core of each step in Dafny and proves what each step promises.

- **Posting lists** (`postings.dfy`). The sorted-merge intersection,
  union and complement of ascending doc-id lists are loops proved equal
  to recursive reference functions. Those functions are proved to give
  set intersection, union and complement, with ascending, duplicate-free
  results.
- **Query language** (`query_lexer.dfy`, `query_language.dfy`,
  `query_evaluator.dfy`). The lexer yields `&&`, `||`, `!`, parentheses
  and words of at most 255 lower-cased bytes. A grammar states the
  recursive descent: `!` binds tightest, then AND (explicit or by
  juxtaposition), then OR. The evaluator class consumes tokens through
  the parser's position. Each of its parse methods is proved to compute
  the evaluation of what the grammar reads and to leave exactly what the
  grammar leaves.
- **Index construction** (`dynamic_array.dfy`, `hash_map.dfy`,
  `indexer.dfy`, `index_format.dfy`, `index_loader.dfy`). The growable
  array and the chained hash map are classes over arrays. The indexer
  lower-cases, validates, optionally stems and posts tokens, with each
  doc id at most once per list, and then sorts. The on-disk layout is an
  encoder over byte sequences. The loader's decoders are proved to invert
  it, and to reject a wrong magic number or truncated input.
- **Text normalisation** (`stemmer.dfy`, `tokenizer.dfy`). The
  three-stage suffix stripper works in place on a byte buffer. The
  UTF-8-aware tokenizer keeps running byte, token and character totals.
- **TSV hand-over** (`export.dfy`, `tsv_parse.dfy`). `strip_html`,
  `extract_title_from_html`, `safe_text` and the numbering rule of the
  Python export are modelled. The C line parser is a class method over
  fixed-size buffers. A line the export writes is proved to parse back
  to its fields when they fit the buffers.
- **Crawler data logic** (`crawl_store.dfy`, `crawler.dfy`,
  `fast_crawler.dfy`). This covers:
  - URL normalisation;
  - the insert / skip / update rule over a collection keyed by
    normalised URL;
  - the per-title rules and counters of both crawlers;
  - the paging loops, over a given sequence of upstream answers;
  - the target stopping rule;
  - the selection of stale documents for a re-crawl.

## What the model makes explicit

- **Lower-casing in the indexer.** It raises bytes 0xC0-0xDE by 32. In
  UTF-8 text those are lead bytes, so "Ş" (C5 9E) becomes E5 9E, which is
  no longer the same character. The model follows the bytes.
- **Tokenizer on malformed UTF-8.** A lead byte from 0xC0 to 0xDF takes
  the next byte with it, and one from 0xE0 to 0xEF the next two, whatever
  those bytes are. So a space or other separator after a stray lead byte
  ends up inside the token ("Ã a" is one token). A lead byte is not a
  letter only when too few bytes follow it or when it is 0xF0 or above;
  then it is skipped like any other byte.
- **Over-long URLs in the TSV parser.** Take a URL one byte longer than
  the 511-byte buffer. Its first 511 bytes are kept and its last byte is
  stepped over as if it were the tab. The real tab then ends an empty
  title, and the title, a tab and the content all become the content.
  Only fields within the limits round-trip.
- **Export titles.** A title taken from a heading is not cut, so it can
  be empty or longer than the parser's 511-byte title buffer. A title
  chosen without a heading always fits: it is at most 100 characters.
- **`normalize_url` idempotence.** It is idempotent exactly for URLs
  that have a scheme. Without one, every call prefixes another `://`.
- **Re-crawl title.** The re-crawl fetches the title taken from the
  stored, lower-cased URL, not the original title.
- **`should_reindex` versus the query.** They disagree on a document
  crawled exactly at the cutoff: `should_reindex` accepts it and the
  query's strict `$lt` leaves it out.
- **Empty continuation.** An empty `cmcontinue` is not sent.
- **Failed saves in the fast crawler.** A save that fails is counted as
  processed, not as an error. The plain crawler counts the same failure
  as an error.
- **No target check before the first article.** `crawl_parallel` checks
  the target only after each article. So a pass starting at the target
  still processes one article.
- **Stemmer test comments.** Several comments in `src/test_stemmer.cpp`
  expect stems that the code does not produce. The model follows the
  code:
  - "evim" is left alone (4 bytes);
  - "evlerde" becomes "evler";
  - "tarihinde" becomes "tarihi".

Two behaviours of the C++ code look unintended. They are listed under
"## Findings", each modelled as written and as intended.

## Model

| member | source | states |
|---|---|---|
| Bytes.AsciiLower | src/searcher.h:297-303 | an upper-case ASCII letter moves up by 32 to its lower-case letter; every other byte, 0x80 and above included, is left as it is; no upper-case letter remains |
| Bytes.AsciiLowerAll | src/searcher.h:297-303 | lower-casing a buffer keeps its length and lower-cases each byte on its own |
| Bytes.StrLessIrreflexive | src/indexer.cpp:177-181 | the strcmp order that compare_terms sorts by never puts a string before itself |
| Bytes.StrLessTransitive | src/indexer.cpp:177-181 | the strcmp order is transitive |
| Bytes.StrLessTotal | src/indexer.cpp:177-181 | two different strings are ordered one way exactly |
| Bytes.StrCmpAntisymmetric | src/indexer.cpp:177-181 | swapping the arguments of strcmp flips its sign, and it is zero exactly on equal strings |
| Utf8.Width | scripts/export_for_indexer_tsv.py:45 | a code point takes 1 to 4 bytes once written as UTF-8, and one byte exactly when it is below 0x80 |
| Utf8.Cont | scripts/export_for_indexer_tsv.py:45 | a UTF-8 continuation byte lies in 0x80..0xBF |
| Utf8.EncodeChar | scripts/export_for_indexer_tsv.py:45 | a code point is encoded in Width bytes; an ASCII one as itself, a wider one as bytes that all have the high bit set |
| Utf8.Encode | scripts/export_for_indexer_tsv.py:45 | the file's bytes number between one and four per character |
| Utf8.ByteLength | scripts/export_for_indexer_tsv.py:45 | the encoded length lies between one and four bytes per character |
| Utf8.EncodeLength | scripts/export_for_indexer_tsv.py:45 | the encoding is exactly ByteLength bytes long |
| Utf8.EncodeAppend | scripts/export_for_indexer_tsv.py:45 | encoding distributes over concatenation, so a written line is the encoding of its parts |
| Utf8.EncodeAscii | scripts/export_for_indexer_tsv.py:45 | ASCII text is written as itself |
| Utf8.AsciiByteIn | scripts/export_for_indexer_tsv.py:45 | an ASCII byte such as a tab or a newline appears in the encoding exactly when its character appears in the text |
| IndexTypes.CString | src/indexer.h:35-51 | the C string of a NUL-terminated buffer is the prefix before its first NUL |
| IndexTypes.CStringOfCChars | src/indexer.h:35-51 | a buffer without NUL is its own C string |
| DynamicArrays.DynamicArray.constructor | src/indexer.h:59 | a new array is empty and has no capacity |
| DynamicArrays.DynamicArray.Copy | src/indexer.h:61-68 | the copy holds the same elements in a buffer of its own, with the source's capacity when the source is non-empty and none otherwise |
| DynamicArrays.DynamicArray.Assign | src/indexer.h:70-85 | self-assignment changes nothing; otherwise the array gets a fresh buffer holding the other's elements and capacity |
| DynamicArrays.DynamicArray.Reserve | src/indexer.h:91-102 | the elements are kept; a request above the capacity moves them into a fresh buffer of exactly that size, and a smaller one does nothing |
| DynamicArrays.DynamicArray.PushBack | src/indexer.h:104-109 | the value is appended after the unchanged elements; a full array first grows to 8 slots when it has none and to twice its capacity otherwise |
| DynamicArrays.DynamicArray.Get | src/indexer.h:111-117 | it returns the element at the index |
| HashMaps.Djb2 | src/indexer.h:147-154 | the djb2 fold (h = 5381, then h * 33 + c with c a signed char) stays within 64-bit size_t |
| HashMaps.HashNode.constructor | src/indexer.h:125-133 | a node holds a copy of the key and a fresh, empty posting list |
| HashMaps.Keys | src/indexer.h:180-186 | the keys of a bucket's nodes, in chain order |
| HashMaps.InsertKeepsInv | src/indexer.h:188-191 | putting a node for a new key at the head of the key's bucket keeps the table's invariant: every node sits in the bucket its key hashes to, every key is present, no key is in a bucket twice, and lists are not shared |
| HashMaps.InsertKeepsPlaced | src/indexer.h:188-191 | after the head insertion every node still sits in its key's bucket as that key's entry |
| HashMaps.InsertKeepsPresent | src/indexer.h:188-191 | after the head insertion every key of the map is found in its bucket |
| HashMaps.InsertKeepsNoDuplicate | src/indexer.h:188-191 | inserting a key absent from its bucket keeps the bucket's keys distinct |
| HashMaps.FlattenPrefix | src/indexer.h:198-236 | the nodes of the first b buckets are placed, have distinct keys, and cover every key hashed below b |
| HashMaps.FlattenStepPlaced | src/indexer.h:198-236 | one more bucket keeps every listed node placed |
| HashMaps.FlattenStepDistinct | src/indexer.h:198-236 | one more bucket keeps the listed keys distinct |
| HashMaps.FlattenStepCovers | src/indexer.h:198-236 | one more bucket covers the keys hashed to it |
| HashMaps.FindInChain | src/indexer.h:180-186 | the walk along a bucket finds the node holding the key, or reports that no node holds it |
| HashMaps.HashMap.constructor | src/indexer.h:157-163 | a new table has empty buckets and maps nothing |
| HashMaps.HashMap.Hash | src/indexer.h:147-154 | the hash is the djb2 fold reduced modulo the bucket count |
| HashMaps.HashMap.GetOrCreate | src/indexer.h:177-194 | a present key yields its own list and changes nothing; a new key gets a fresh empty list; either way the table keeps its invariant and the key is added to its key set |
| HashMaps.HashMap.Insert | src/indexer.h:188-193 | a new key gets a fresh empty list at the head of its bucket, and the map gains exactly that entry |
| HashMaps.HashMap.Size | src/indexer.h:196 | the size is the number of distinct keys |
| HashMaps.HashMap.AllNodesExact | src/indexer.h:198-236 | iteration order visits every entry of the map exactly once |
| HashMaps.Iterator.constructor | src/indexer.h:205-212 | a new iterator has yielded nothing yet |
| HashMaps.Iterator.HasNext | src/indexer.h:214-216 | has_next is false exactly when the buckets are exhausted, and then every node has been yielded in bucket order |
| HashMaps.Iterator.Next | src/indexer.h:218-235 | next yields the current node and appends it to what has been yielded; at the end it yields null |
| IndexFormat.Radix | src/indexer.cpp:224-237 | 256^k is positive: the number of values k stored bytes can hold |
| IndexFormat.LittleEndian | src/searcher.h:135 | the value of k bytes read least significant first is below 256^k |
| IndexFormat.ToLittleEndian | src/indexer.cpp:225 | fwrite of an integer lays out exactly k bytes |
| IndexFormat.LittleEndianOfEncoded | src/indexer.cpp:225 | reading back the k bytes written from a value below 256^k gives the value |
| IndexFormat.EncodedOfLittleEndian | src/searcher.h:135 | writing back the value of some bytes gives those bytes |
| IndexFormat.LE16 | src/indexer.cpp:231 | a uint16 takes two bytes |
| IndexFormat.LE32 | src/indexer.cpp:230 | a uint32 takes four bytes |
| IndexFormat.ReadU16Encoded | src/searcher.h:148 | fread of a uint16 returns the value fwrite wrote and leaves the bytes after it |
| IndexFormat.ReadU32Encoded | src/searcher.h:147 | fread of a uint32 returns the value fwrite wrote and leaves the bytes after it |
| IndexFormat.ReadBytesEncoded | src/searcher.h:151 | fread of n bytes returns the n bytes written and leaves the rest |
| IndexFormat.ReadU16Inverse | src/searcher.h:148 | whatever a uint16 fread accepts is the encoding of the value it returns |
| IndexFormat.ReadU32Inverse | src/searcher.h:147 | whatever a uint32 fread accepts is the encoding of the value it returns |
| IndexFormat.LengthPrefixedRoundTrip | src/searcher.h:148-152 | a uint16 length followed by that many bytes reads back as the length and the first that-many bytes |
| IndexFormat.LengthPrefixedInverse | src/searcher.h:148-152 | whatever the length-prefixed read accepts is a length and exactly that many bytes |
| IndexFormat.CountsRoundTrip | src/searcher.h:159-161 | three uint32 values in a row read back as themselves |
| IndexFormat.CountsInverse | src/searcher.h:159-161 | whatever the three reads accept is the encoding of the values they return |
| IndexFormat.ReadManyDecoded | src/searcher.h:146-162 | the record loop fills in all n records exactly when the whole run decodes, and then it holds the decoded records; otherwise it stops short of n |
| IndexFormat.Stored | src/indexer.cpp:231-234 | a stored record keeps only url_length and title_length bytes of its url and title, and a record whose lengths are its true lengths is stored unchanged |
| IndexFormat.DocumentRoundTrip | src/searcher.h:147-161 | a record written by save_to_file reads back as its stored form and leaves the bytes after it |
| IndexFormat.DocumentInverse | src/searcher.h:147-161 | whatever one loader iteration accepts is a stored record followed by the bytes it leaves |
| IndexFormat.DocumentPrefixFree | src/searcher.h:147-161 | a stored record is never a proper prefix of another |
| IndexFormat.DocumentTruncated | src/searcher.h:147-161 | every proper prefix of a stored record is rejected as a short read |
| IndexFormat.StoredAll | src/indexer.cpp:228-238 | storing a list of records stores each one |
| IndexFormat.EncodeDocumentsSnoc | src/indexer.cpp:228-238 | the record of one more document follows those of the earlier ones |
| IndexFormat.DocumentsRoundTrip | src/searcher.h:146-162 | a run of stored records reads back as their stored forms |
| IndexFormat.DocumentsTruncated | src/searcher.h:146-162 | a run of records cut short anywhere is rejected |
| IndexFormat.CountHeaderEncoded | src/searcher.h:134-138 | the two header words (the count twice) read back as the count |
| IndexFormat.HeaderTruncated | src/searcher.h:134-138 | a file cut inside its header is rejected; cut after it, the count reads back and the body is cut instead |
| IndexFormat.ForwardRoundTrip | src/searcher.h:130-170 | load_forward_index reads back what save_to_file wrote, each url and title cut to its stored uint16 length |
| IndexFormat.ForwardTruncated | src/searcher.h:130-170 | a .forward file cut short anywhere is rejected |
| IndexFormat.StoredTerm | src/indexer.cpp:268-274 | a stored term keeps term_length bytes of its string and all its doc ids, and a term whose length is its true length is stored unchanged |
| IndexFormat.IdsRoundTrip | src/searcher.h:197-198 | the doc ids written by one fwrite read back as themselves |
| IndexFormat.IdsInverse | src/searcher.h:197-198 | whatever the doc-id fread accepts is the encoding of the n ids it returns |
| IndexFormat.TermRoundTrip | src/searcher.h:189-198 | a term record reads back as its stored form and leaves the bytes after it |
| IndexFormat.TermInverse | src/searcher.h:189-198 | whatever one loader iteration accepts is a stored term followed by the bytes it leaves |
| IndexFormat.TermTruncated | src/searcher.h:189-198 | every proper prefix of a term record is rejected |
| IndexFormat.StoredTerms | src/indexer.cpp:266-275 | storing a list of terms stores each one |
| IndexFormat.EncodeTermsSnoc | src/indexer.cpp:266-275 | the record of one more term follows those of the earlier ones |
| IndexFormat.TermsRoundTrip | src/searcher.h:188-199 | a run of term records reads back as their stored forms |
| IndexFormat.TermsTruncated | src/searcher.h:188-199 | a run of term records cut short anywhere is rejected |
| IndexFormat.InvertedRoundTrip | src/searcher.h:172-207 | load_inverted_index reads back what save_to_file wrote |
| IndexFormat.InvertedTruncated | src/searcher.h:172-207 | an .inverted file cut short anywhere is rejected |
| IndexFormat.EncodeMetadata | src/indexer.cpp:215 | the header struct takes 296 bytes |
| IndexFormat.DecodeMetadata | src/searcher.h:120 | the header read back keeps its 256 reserved bytes |
| IndexFormat.MetadataRoundTrip | src/searcher.h:116-128 | the loader reads back the header the indexer wrote, field for field |
| IndexFormat.FieldAt16 | src/searcher.h:120 | a uint16 field of the header reads back as written |
| IndexFormat.FieldAt32 | src/searcher.h:120 | a uint32 field of the header reads back as written |
| IndexLoading.MissAbove | src/searcher.h:88-89 | when the key sorts before the middle term of a sorted table, none of the terms from the middle on equals it |
| IndexLoading.MissBelow | src/searcher.h:90-91 | when the key sorts after the middle term, none of the terms up to the middle equals it |
| IndexLoading.Search | src/searcher.h:77-95 | the binary search only lands on an entry between left and right whose term equals the key |
| IndexLoading.SearchTerms | src/searcher.h:66-96 | find_term only returns an entry among the first total_unique_terms whose term equals the key, and finds nothing when that count exceeds 2^31 |
| IndexLoading.SearchMisses | src/searcher.h:77-95 | a search that finds nothing in a sorted table has passed over every entry |
| IndexLoading.SearchTermsComplete | src/searcher.h:66-96 | in a strcmp-sorted table of at most 2^31 terms, find_term finds the key exactly when some term equals it |
| IndexLoading.Int32 | src/searcher.h:68 | a uint32 stored in an int keeps values below 2^31 and wraps larger ones to negative numbers |
| IndexLoading.LastIndex | src/searcher.h:68 | right starts at n - 1 for n up to 2^31 (so at -1 for no terms) and wraps negative above that |
| IndexLoading.ZeroMetadata | src/searcher.h:17-19 | the zeroed header has no magic, no documents and no terms |
| IndexLoading.IndexLoader.constructor | src/searcher.h:17-19 | a new loader has a zeroed header and no arrays |
| IndexLoading.IndexLoader.Load | src/searcher.h:42-64 | load succeeds exactly when all three files are accepted, and then holds the decoded header, documents and terms; a failure keeps what the files after it would have filled |
| IndexLoading.IndexLoader.FindTerm | src/searcher.h:66-96 | find_term returns the binary search's entry, whose term equals the key |
| IndexLoading.IndexLoader.GetDocument | src/searcher.h:98-105 | get_document returns the first of the first total_documents records with the id, or none when no record has it |
| IndexLoading.IndexLoader.LoadMetadata | src/searcher.h:116-128 | the header is accepted exactly when the file opens, holds a whole header and starts with INDEX_MAGIC; a whole header is stored even when its magic is wrong, and a file that does not open leaves the header as it was |
| IndexLoading.IndexLoader.LoadForwardIndex | src/searcher.h:130-170 | the file is accepted exactly when every read succeeds, and then the documents are the decoded ones; a short record leaves those read before it |
| IndexLoading.IndexLoader.LoadInvertedIndex | src/searcher.h:172-207 | the same for the term records |
| IndexLoading.ReadRecords | src/searcher.h:146-162 | the record loop fills in the records up to the first short read, and succeeds exactly when all n decode |
| IndexLoading.SavedIndexLoads | src/searcher.h:42-64 | files the indexer saved are accepted, and the loader gets back the header, every document (url and title cut to their stored lengths) and every term |
| Postings.IntersectPostings | src/searcher.h:210-228 | the two-index loop yields exactly the merge Intersection defines, for any input lists |
| Postings.UnionPostings | src/searcher.h:230-253 | the merge loop and the two tail loops yield exactly the merge Union defines, for any input lists |
| Postings.CopyRest | src/searcher.h:249-250 | a tail loop appends the rest of its list to the output |
| Postings.UnionUsedUp | src/searcher.h:249-250 | once one list is used up, the union is the other list |
| Postings.UnionStep | src/searcher.h:236-246 | one merge step keeps an equal head once, otherwise the smaller head |
| Postings.NegatePostings | src/searcher.h:255-269 | the walk over doc ids 1..total_docs yields exactly the complement ComplementFrom defines |
| Postings.IntersectionMembers | src/searcher.h:210-228 | every id of the intersection is in both lists, and for sorted lists every id in both is in the intersection |
| Postings.IntersectionCorrect | src/searcher.h:210-228 | for sorted inputs intersect_postings yields a sorted list holding exactly the ids present in both |
| Postings.UnionMembers | src/searcher.h:230-253 | the union holds exactly the ids of either list, in at most size1 + size2 entries |
| Postings.UnionCorrect | src/searcher.h:230-253 | for any inputs the union keeps every id of either list and no other within size1 + size2 entries, and for sorted inputs it is sorted |
| Postings.AscendingTail | src/searcher.h:215 | the rest of a sorted list is sorted and above its head |
| Postings.AscendingCons | src/searcher.h:217 | an id below a sorted list can be put in front of it |
| Postings.AboveHead | src/searcher.h:215 | a sorted list whose head is above x lies above x |
| Postings.AboveUnion | src/searcher.h:230-253 | the union of two lists above x lies above x |
| Postings.ComplementFromCorrect | src/searcher.h:260-266 | from doc id d on, the walk yields in ascending order exactly the ids d..total_docs missing from a sorted list above d - 1 |
| Postings.ComplementCorrect | src/searcher.h:255-269 | for a sorted list of ids from 1 up, negate_postings yields in ascending order exactly the ids 1..total_docs not in it |
| Postings.ComplementBounded | src/searcher.h:255-269 | whatever the list holds, the complement is ascending and within d..total_docs |
| Postings.HeadIsLeast | src/searcher.h:215 | the head of a sorted list is its least id |
| Postings.AscendingUnique | src/searcher.h:210-269 | two sorted lists with the same ids are the same list, so each operation's result is determined by its set of ids |
| QueryLexer.SkipSpace | src/searcher.h:291-295 | the position reached is the first one from pos on that is not whitespace, with only whitespace passed over |
| QueryLexer.WordEnd | src/searcher.h:350-356 | the word loop stops at the first byte from pos on that cannot continue a word, having passed only word bytes |
| QueryLexer.Lex | src/searcher.h:308-368 | next_token never moves backwards, moves forward unless it returns END, and returns END exactly when the query is used up |
| QueryLexer.LexAt | src/searcher.h:314-365 | after whitespace, the token chosen moves past at least one byte unless it is END at the end of the query |
| QueryLexer.WordAt | src/searcher.h:349-361 | a word token keeps 1 to 255 bytes of the run, all of it when the run is at most 255 bytes long |
| QueryLexer.TokensFrom | src/searcher.h:308-368 | the token stream from a position never contains END |
| QueryLexer.LexWord | src/searcher.h:349-361 | a word token is the lower-cased first 1 to 255 bytes of a maximal run of word bytes, and the lexer moves past the whole run |
| QueryLexer.WordEndAt | src/searcher.h:350-356 | a run of word bytes that no word byte continues is exactly what the word loop passes over |
| QueryLexer.LowerOfLower | src/searcher.h:297-303 | to_lowercase leaves a word without capitals unchanged |
| QueryLexer.LexSkipsSpace | src/searcher.h:309 | whitespace before a token does not change the token or where lexing stops |
| QueryLexer.LexSkipsStray | src/searcher.h:362-364 | a byte that starts no token, such as a lone '&' or '|', is skipped and lexing resumes after it |
| QueryLexer.LexOperators | src/searcher.h:337-347 | '&&' gives AND and '\|\|' gives OR, each consuming two bytes |
| QueryLexer.LexLoneOperators | src/searcher.h:337-365 | a single '&' or '\|' is not an operator: it is skipped |
| QueryLexer.ExampleWords | src/searcher.h:349-361 | in "(A \|\| b) !c" the words are a, b and c, the capital lowered |
| QueryLexer.ExampleOperators | src/searcher.h:319-341 | in "(A \|\| b) !c" the lexer finds '(' and then OR after skipping the space |
| QueryLexer.ExampleClosing | src/searcher.h:314-335 | in "(A \|\| b) !c" the lexer finds ')', NOT and then END |
| QueryLexer.ExampleTokens | src/searcher.h:308-368 | "(A \|\| b) !c" lexes to LPAREN, a, OR, b, RPAREN, NOT, c |
| QueryLexer.TokensFromEnd | src/searcher.h:314-317 | the token stream is empty exactly when the next token is END, and END repeats once reached |
| QueryLexer.BooleanQueryParser.constructor | src/searcher.h:306 | a parser starts at position 0 of its query |
| QueryLexer.BooleanQueryParser.SkipWhitespace | src/searcher.h:291-295 | the loop moves pos to where SkipSpace says |
| QueryLexer.BooleanQueryParser.ToLowercase | src/searcher.h:297-303 | the loop turns exactly the ASCII capitals into small letters, leaving every other byte |
| QueryLexer.BooleanQueryParser.NextToken | src/searcher.h:308-368 | next_token returns the token Lex describes and leaves pos where Lex says |
| QueryLexer.BooleanQueryParser.ScanWord | src/searcher.h:349-357 | the word loop moves pos over the whole run of word bytes and keeps its first 255 |
| QueryLexer.BooleanQueryParser.Reset | src/searcher.h:370-372 | reset puts the parser back at position 0 |
| QueryLanguage.SuffixTransitive | src/search.cpp:19-21 | tokens left after two successive parses are tokens left of the first input, never more of them |
| QueryLanguage.SuffixMember | src/search.cpp:19-21 | every token the parser has left comes from the input |
| QueryLanguage.Expression | src/search.cpp:23-33 | parse_expression consumes a prefix of its tokens and stops only at a token that neither continues an OR nor an AND |
| QueryLanguage.OrChain | src/search.cpp:26-30 | the OR loop consumes a prefix of the tokens and stops at the first token that is not OR |
| QueryLanguage.Conjunction | src/search.cpp:35-47 | parse_term consumes a prefix of its tokens and stops only at a token that cannot continue the AND loop |
| QueryLanguage.AndChain | src/search.cpp:38-44 | the AND loop consumes a prefix of the tokens and stops at the first token that is neither AND nor, as written, a word |
| QueryLanguage.Factor | src/search.cpp:49-83 | a factor consumes at least one token when it starts with '!', '(' or a word, and otherwise consumes nothing and matches no document |
| QueryLanguage.EvalCorrect | src/search.cpp:23-83 | with ascending posting lists of ids 1..total, every query's result is ascending, lies in 1..total and holds exactly the documents satisfying the query read as a Boolean formula |
| QueryLanguage.AndIsOptional | src/search.cpp:38-42 | an explicit '&&' before a factor parses the same as juxtaposition |
| QueryLanguage.FactorWord | src/search.cpp:65-79 | a word is a factor of its own, consuming exactly that word |
| QueryLanguage.ChainsStop | src/search.cpp:26-38 | both loops stop at END and keep what they have |
| QueryLanguage.ExpressionWord | src/search.cpp:23-83 | a one-word query is that word's postings and consumes everything |
| QueryLanguage.JuxtapositionExample | src/search.cpp:35-47 | "a b" and "a && b" parse to the same AND of the two words |
| QueryLanguage.PrecedenceExample | src/search.cpp:23-47 | AND binds tighter than OR: "a \|\| b c" is a OR (b AND c) |
| QueryLanguage.NegationPrecedenceExample | src/search.cpp:23-54 | '!' binds tighter than AND: "!a b \|\| c" is ((NOT a) AND b) OR c |
| QueryLanguage.UnbalancedExample | src/search.cpp:56-63 | a group whose ')' is missing is read to the end, and a query starting with ')' matches nothing |
| QueryLanguage.NegationDropped | src/search.cpp:38 | as written, "a !b" and "a (b" evaluate as "a" alone, the rest being ignored |
| QueryLanguage.IntendedConsumesAll | src/search.cpp:103-110 | with juxtaposition also before '!' and '(', every query without ')' is read to the end, and "a !b" is a AND NOT b |
| QueryLanguage.AsWrittenStops | src/search.cpp:23-47 | as written, parsing stops early only at ')', '!' or '(' |
| QueryEvaluation.TermPostingsMeaning | src/search.cpp:65-79 | with a sorted term table, a word that is no term gives no documents and a word that is one gives that term's doc ids |
| QueryEvaluation.IndexWellFormed | src/search.cpp:65-79 | ascending posting lists of ids 1..total make the lookup the evaluator uses well-formed, so EvalCorrect applies |
| QueryEvaluation.EvalOr | src/search.cpp:29 | an OR node evaluates to union_postings of its two sides |
| QueryEvaluation.EvalAnd | src/search.cpp:43 | an AND node evaluates to intersect_postings of its two sides |
| QueryEvaluation.EvalNot | src/search.cpp:53 | a NOT node evaluates to negate_postings of its operand over the document count |
| QueryEvaluation.CopyPostings | src/search.cpp:70-73 | the copy loop yields exactly the term's doc ids |
| QueryEvaluation.QueryEvaluator.constructor | src/search.cpp:86 | the evaluator holds the given parser, loader and grammar, with no token read yet |
| QueryEvaluation.QueryEvaluator.Advance | src/search.cpp:19-21 | the next token becomes current and the tokens still to come lose their head |
| QueryEvaluation.QueryEvaluator.ParseExpression | src/search.cpp:23-33 | the result is the evaluation of the expression the grammar reads from the remaining tokens, and exactly the tokens the grammar leaves remain |
| QueryEvaluation.QueryEvaluator.ParseTerm | src/search.cpp:35-47 | the AND loop goes on at && or a word (as written) and also at ! or ( (intended); the result is the evaluation of the term the grammar reads, and exactly the tokens the grammar leaves remain |
| QueryEvaluation.QueryEvaluator.ParseFactor | src/search.cpp:49-83 | the result is the evaluation of the factor the grammar reads, and exactly the tokens the grammar leaves remain |
| QueryEvaluation.QueryEvaluator.Evaluate | src/search.cpp:88-92 | the result is the evaluation of the whole query's parse against the index, whatever an earlier evaluation left behind |
| Stemming.EndsWithSlice | src/turkish_stemmer.h:9-16 | ends_with holds exactly when the suffix is no longer than the word and equals its last bytes |
| Stemming.EndsWithConcat | src/turkish_stemmer.h:9-16 | a word followed by a suffix ends with that suffix |
| Stemming.CaseSuffixLengths | src/turkish_stemmer.h:48-52 | every case ending has two or three bytes |
| Stemming.CaseEndingLastBytes | src/turkish_stemmer.h:48-52 | every case ending ends in a, e, i, n or u |
| Stemming.FirstSuffixFrom | src/turkish_stemmer.h:54-60 | the entry found from k on is one the word ends with and no earlier entry from k is; none is found exactly when the word ends with none of them |
| Stemming.FirstSuffix | src/turkish_stemmer.h:54-60 | the case-ending loop picks the first entry in list order that the word ends with, and none exactly when it ends with none |
| Stemming.StripFirst | src/turkish_stemmer.h:54-60 | the loop leaves a prefix of the word, shorter by the length of the first ending found, or the word itself when none is |
| Stemming.StripFirstRemovesFirst | src/turkish_stemmer.h:54-60 | when entry i is the first ending of the word, the word is what is left followed by that ending |
| Stemming.NoCaseEnding | src/turkish_stemmer.h:48-60 | a word whose last byte is none of a, e, i, n, u loses no case ending |
| Stemming.StemWord | src/turkish_stemmer.h:25-64 | stem leaves a prefix of the word, reports a change exactly when it shortened it, leaves words under five bytes alone, and takes off at most eight bytes, never the whole word |
| Stemming.StemWordStages | src/turkish_stemmer.h:25-64 | stem applies the plural, possessive and case stages in that order and reports whether any of them applied |
| Stemming.PluralStageRemoves | src/turkish_stemmer.h:32-36 | stage one takes off exactly a trailing "lar" or "ler" when the word has one, and otherwise changes nothing |
| Stemming.PossessiveStageRemoves | src/turkish_stemmer.h:38-45 | stage two takes off two bytes exactly when a word of four bytes or more ends in "im", "in", "um" or "un", and otherwise changes nothing |
| Stemming.NothingApplies | src/turkish_stemmer.h:25-64 | a word no stage applies to is left unchanged and reported unmodified |
| Stemming.PluralOnly | src/turkish_stemmer.h:32-36 | a stem followed by "lar" or "ler", with nothing for the later stages, loses exactly the plural |
| Stemming.CaseOnly | src/turkish_stemmer.h:47-61 | a stem followed only by case ending i loses exactly that ending |
| Stemming.KitaplarExample | src/test_stemmer.cpp:22 | "kitaplar" stems to "kitap" |
| Stemming.KitabimExample | src/test_stemmer.cpp:30 | "kitabım" is left alone, as its ending is the bytes of "ım", not "im" |
| Stemming.EvdenExample | src/test_stemmer.cpp:35 | "evden" stems to "ev" |
| Stemming.IstanbuldaExample | src/test_stemmer.cpp:37 | "istanbulda" stems to "istanbul" |
| Stemming.TurkiyedeExample | src/test_stemmer.cpp:56 | "türkiyede" stems to "türkiye" |
| Stemming.KitaplardanExample | src/test_stemmer.cpp:43 | one call of stem on "kitaplardan" leaves "kitaplar", the plural staying because the stages run in order |
| Stemming.TarihindeExample | src/test_stemmer.cpp:58 | "tarihinde" loses "nde", which comes before "de" in the list, leaving "tarihi" |
| Stemming.RepeatPrefix | src/turkish_stemmer.h:66-70 | repeating a shortening step leaves a prefix, and a step that changes nothing stops the repetition at once |
| Stemming.RepeatStep | src/turkish_stemmer.h:66-70 | after a round that changed the word, the repetition goes on from the changed word with one round fewer |
| Stemming.StemRepeatedPrefix | src/turkish_stemmer.h:66-70 | stem_aggressive leaves a prefix of the word, and a word stem leaves alone is left alone |
| Stemming.StemRepeatedStep | src/turkish_stemmer.h:66-70 | stem_aggressive goes on from the result of one call of stem when that call changed the word |
| Stemming.AggressiveExample | src/turkish_stemmer.h:66-70 | stem_aggressive takes "kitaplardan" to "kitap" in two calls of stem, the third changing nothing |
| Stemming.CutCString | src/turkish_stemmer.h:21 | writing a NUL inside the C string cuts it at that position |
| Stemming.CStringOfTerminated | src/turkish_stemmer.h:73-74 | a buffer holding contents and then a NUL holds exactly those contents, whatever follows |
| Stemming.OnlyCutTransitive | src/turkish_stemmer.h:25-64 | two successive truncations of the buffer are again a truncation that only writes NULs |
| Stemming.StrLen | src/turkish_stemmer.h:10-26 | strlen counts the bytes up to the first NUL |
| Stemming.RemoveSuffix | src/turkish_stemmer.h:18-22 | remove_suffix writes one NUL where the suffix starts and so cuts the C string by the suffix's length |
| Stemming.RemoveFirstSuffix | src/turkish_stemmer.h:54-60 | the loop cuts the buffer's string by the first case ending it ends with, reporting whether one was found, and only writes NULs |
| Stemming.RemovePlural | src/turkish_stemmer.h:32-36 | the plural step changes the buffer's string as PluralStage says and reports whether it applied |
| Stemming.RemovePossessive | src/turkish_stemmer.h:38-45 | the possessive step changes the buffer's string as PossessiveStage says and reports whether it applied |
| Stemming.Stem | src/turkish_stemmer.h:25-64 | stem changes the caller's buffer in place to the string and flag StemWord gives, only writing NULs |
| Stemming.StemAggressive | src/turkish_stemmer.h:66-70 | stem_aggressive leaves in the buffer the string StemRepeated gives for three rounds |
| Stemming.GetStem | src/turkish_stemmer.h:72-76 | get_stem leaves in the buffer the stem of the word cut to buffer_size - 1 bytes, NUL-terminated |
| Tokenizing.TurkishLetterIsTwoByteLead | src/tokenizer.cpp:25-38 | every Turkish letter pair has a lead byte from 0xC0 to 0xDF, so it is also caught by the general two-byte rule |
| Tokenizing.LetterAt | src/tokenizer.cpp:40-73 | a letter is one ASCII letter byte, or a sequence of two or three bytes from a lead byte 0xC0 or above; a lead byte below 0xE0 with a byte after it always makes two, one from 0xE0 to 0xEF with two bytes after it three |
| Tokenizing.WordEnd | src/tokenizer.cpp:115-142 | the word loop stops at a position where no letter starts and no apostrophe or hyphen followed by a letter does |
| Tokenizing.NumberEnd | src/tokenizer.cpp:153-157 | the number loop passes exactly the run of digits and dots |
| Tokenizing.SpansFrom | src/tokenizer.cpp:98-167 | the tokens found are shaped as words or numbers, lie from pos on, and follow each other without overlap in input order |
| Tokenizing.TokenText | src/tokenizer.cpp:144-158 | a token has exactly the bytes of its span |
| Tokenizing.Render | src/tokenizer.cpp:144-161 | there is one token per span, each the text of its span |
| Tokenizing.TotalLengthSnoc | src/tokenizer.cpp:148-161 | adding a token adds its length to the characters counted |
| Tokenizing.TokensAreLowercasedSlices | src/tokenizer.cpp:93-170 | every token is non-empty, has no ASCII capital, is the lowered bytes of a word or the bytes of a number of the text, and the tokens come in input order without overlap |
| Tokenizing.NoTokensWithoutLetters | src/tokenizer.cpp:165-166 | a text of punctuation and separators only, with no byte from 0xC0 up, gives no tokens |
| Tokenizing.LetterHasNoSeparator | src/tokenizer.cpp:40-73 | in text whose multi-byte sequences are well formed, a letter holds no separator |
| Tokenizing.WordHasNoSeparator | src/tokenizer.cpp:115-142 | in such text, a word holds no separator |
| Tokenizing.TokensHaveNoSeparator | src/tokenizer.cpp:93-170 | in text whose multi-byte sequences are well formed, no token holds a space, tab, LF or CR |
| Tokenizing.SpanIsWordEnd | src/tokenizer.cpp:111-142 | a word token ends where the word loop stops after its first letter |
| Tokenizing.SpaceAfterLeadByte | src/tokenizer.cpp:60-63 | with malformed UTF-8 a token can swallow a space: "Ã a" with a lone lead byte 0xC3 is one token |
| Tokenizing.LowercaseCopy | src/tokenizer.cpp:79-87 | to_lowercase lowers exactly the ASCII capitals |
| Tokenizing.SkipSeparators | src/tokenizer.cpp:100-103 | the separator loop stops at the end or at a non-separator, and skipping separators changes no token |
| Tokenizing.ScanWord | src/tokenizer.cpp:115-142 | the word loop ends where WordEnd says |
| Tokenizing.ScanNumber | src/tokenizer.cpp:155-157 | the number loop ends where NumberEnd says |
| Tokenizing.ScanToken | src/tokenizer.cpp:107-166 | one pass of the outer loop moves forward and emits exactly the next token of the text, or nothing when a stray byte is skipped |
| Tokenizing.Emitted | src/tokenizer.cpp:146-159 | appending a token keeps the tokens in order |
| Tokenizing.Tokenizer.constructor | src/tokenizer.cpp:90 | a tokenizer starts with all three counters at zero |
| Tokenizing.Tokenizer.Tokenize | src/tokenizer.cpp:93-170 | tokenize returns exactly the tokens of the text, adds the text's length to total_bytes, the number of tokens to total_tokens and their total length to total_chars |
| Indexing.LowercaseMeaning | src/indexer.cpp:36-55 | to_lowercase keeps the length, turns the pair 'I' 0xB0 into 0xC4 0xB1, raises 'A'..'Z' and 0xC0..0xDE by 32 elsewhere, and keeps every other byte |
| Indexing.LowercaseAscii | src/indexer.cpp:36-55 | on ASCII text the indexer's lower-casing agrees with the query lexer's |
| Indexing.LowercaseUtf8 | src/indexer.cpp:51-53 | on UTF-8 text it does not: "şehir" gets the lead byte 0xE5, which the query side's lower-casing leaves as 0xC5 |
| Indexing.ToLowercase | src/indexer.cpp:36-55 | the loop leaves in the buffer the C string Lowercase gives, the bytes after the NUL untouched |
| Indexing.IsValidTerm | src/indexer.cpp:57-72 | is_valid_term holds exactly for terms of at least two bytes with an ASCII letter among them |
| Indexing.ScanTextShaped | src/indexer.cpp:106-117 | every token the loop closes, and the one left open, is a non-empty run of token bytes of at most 255 bytes |
| Indexing.RunLength | src/indexer.cpp:109 | the run of token bytes a text starts with ends at the first byte that is not one |
| Indexing.ScanTextSnoc | src/indexer.cpp:106-149 | the state after one more byte is one loop step from the state before |
| Indexing.ScanFromSnoc | src/indexer.cpp:106-149 | scanning from a given state is also one step per byte |
| Indexing.ScanTextFrom | src/indexer.cpp:103-104 | the loop starts with no token closed and none open |
| Indexing.ScanRun | src/indexer.cpp:110-116 | a run of token bytes only extends the open token, keeping at most 255 bytes |
| Indexing.ScanRuns | src/indexer.cpp:106-149 | scanning from no open token closes exactly the maximal runs of the text, cut to 255 bytes, and leaves the last one open |
| Indexing.ScanFromAppend | src/indexer.cpp:106-149 | scanning two pieces of text one after the other is scanning them together |
| Indexing.TokensAreRuns | src/indexer.cpp:106-168 | the tokens of a text are its maximal runs of token bytes, each cut to 255 bytes, in order |
| Indexing.PostedShaped | src/indexer.cpp:119-144 | a token is posted at most once, only as a valid term no longer than the token |
| Indexing.ValidTermsShaped | src/indexer.cpp:119-144 | the terms of a run of tokens are valid, at most one per token, and fit the token buffer when the tokens do |
| Indexing.TextTermsShaped | src/indexer.cpp:99-169 | every term posted for a text is valid and at most 255 bytes long |
| Indexing.ValidTermsSnoc | src/indexer.cpp:119-144 | closing one more token appends its posted form to the terms so far |
| Indexing.TextTermsEnd | src/indexer.cpp:151-168 | the closed tokens and then the open one make up the terms of the text |
| Indexing.IntendedPostsEveryRunAlike | src/indexer.cpp:99-169 | in the intended program every maximal run of the text is lower-cased, stemmed and checked the same way wherever it stands |
| Indexing.LowercaseOfLower | src/indexer.cpp:36-55 | lower-casing leaves lower-case ASCII alone |
| Indexing.ScanOneRun | src/indexer.cpp:106-149 | a text of one run ends with that run open and nothing closed |
| Indexing.TrailingWordUnstemmed | src/indexer.cpp:151-154 | as written, with stemming on, a text ending in "kitaplar" posts "kitaplar" unstemmed |
| Indexing.TrailingWordStemmed | src/indexer.cpp:122-126 | the intended program posts the same text as "kitap", as it does that word anywhere else |
| Indexing.AddPostingMeaning | src/indexer.cpp:129-141 | posting a doc id under a term adds the term if new, keeps every other list, appends the id once only when absent, and keeps lists free of repeats |
| Indexing.PostAllAppend | src/indexer.cpp:93-94 | posting two batches of terms in turn is posting them together |
| Indexing.PostAllMeaning | src/indexer.cpp:99-169 | after posting a document's terms the index has exactly the old terms and the new ones, untouched lists for the others, and the doc id under each posted term and no other new id |
| Indexing.PostAllWellPosted | src/indexer.cpp:129-141 | posting terms that fit the buffer keeps every list free of duplicate ids |
| Indexing.AddTokens | src/indexer.cpp:143-166 | counting tokens changes only the last record's token count |
| Indexing.AddTokensAdd | src/indexer.cpp:143-166 | counting a tokens and then b is counting a + b |
| Indexing.AddTokensAppend | src/indexer.cpp:93-94 | counting one batch of terms after another is counting both at once |
| Indexing.AlreadyAdded | src/indexer.cpp:131-137 | the scan finds the doc id exactly when it is in the list |
| Indexing.NormalizeToken | src/indexer.cpp:122-126 | the buffer then holds the token lower-cased and, when asked, stemmed |
| Indexing.Terminate | src/indexer.cpp:152 | writing the NUL makes the buffer hold exactly the token's bytes |
| Indexing.AddTokensLast | src/indexer.cpp:143-166 | counting tokens after appending a record adds them to that record, with uint32 wrap-around |
| Indexing.NewDocument | src/indexer.cpp:76-89 | the new record has the given id, url and title, their exact lengths, the content length and token count modulo 2^32, and no unique terms |
| Indexing.NewDocumentCounted | src/indexer.cpp:88-94 | counting the terms of the content and then of the title in a fresh record leaves it holding the number of both |
| Indexing.AddDocumentKeepsConsistent | src/indexer.cpp:74-97 | adding a document keeps the indexer consistent: exact records, terms that fit the buffer and lists without repeated ids |
| Indexing.WithStemmedFlag | src/indexer.cpp:28 | flags \|= FLAG_STEMMED sets the stemmed bit and keeps every other bit |
| Indexing.SortIds | src/indexer.cpp:171-192 | qsort with compare_uint32 leaves the same ids in ascending order |
| Indexing.NoDupMultiset | src/indexer.cpp:131-141 | a list holds no id twice exactly when no id occurs more than once in its multiset |
| Indexing.SortedDistinct | src/indexer.cpp:191-192 | sorting a list without repeats leaves it strictly ascending and still without repeats |
| Indexing.TermRecord | src/indexer.cpp:267-274 | the record written for a key holds that key and its list, and reads back unchanged when the key fits a uint16 length |
| Indexing.TermRecords | src/indexer.cpp:266-275 | one storable record per key, in the keys' order, each with its key's list |
| Indexing.HeadIn | src/indexer.cpp:264 | the first key of a non-empty list is one of its keys |
| Indexing.StrOrderUnique | src/indexer.cpp:177-181 | two strcmp-ordered lists of the same keys are the same list, so the saved order does not depend on the hash table's order |
| Indexing.InsertKey | src/indexer.cpp:264 | putting a new key into an ordered list keeps it ordered and adds exactly that key |
| Indexing.SortKeys | src/indexer.cpp:177-181 | qsort with compare_terms leaves the same keys in strictly ascending strcmp order |
| Indexing.SavedTermsSearchable | src/indexer.cpp:248-275 | the saved term table reads back unchanged, is in ascending strcmp order, and the searcher's binary search finds exactly the indexer's terms |
| Indexing.ForwardStep | src/indexer.cpp:228-238 | writing one more document record appends its encoding |
| Indexing.WriteForward | src/indexer.cpp:224-238 | the forward file holds the document count twice and then every record, as the loader's format defines |
| Indexing.InvertedStep | src/indexer.cpp:266-275 | writing one more term record appends its encoding |
| Indexing.WriteInverted | src/indexer.cpp:248-275 | the inverted file holds the term count twice and then every term record in key order, as the loader's format defines |
| Indexing.SearchKey | src/indexer.cpp:299-302 | the key search_term looks up has at most 255 bytes, all of the term when it is that short |
| Indexing.SearchKeyOfToken | src/indexer.cpp:298-305 | a term that fits the buffer is looked up under the key indexing without stemming posts it under |
| Indexing.Indexer.constructor | src/indexer.cpp:8-16 | a new indexer has no documents and no terms, the magic and version of the format, no flags, a zeroed reserved block and the clock's time |
| Indexing.Indexer.SetOptions | src/indexer.cpp:25-30 | turning stemming on sets the stemmed flag, turning it off changes no flag, and nothing else changes |
| Indexing.Indexer.PostTerm | src/indexer.cpp:129-143 | the doc id is posted under the term and the last record counts one more token |
| Indexing.Indexer.IndexToken | src/indexer.cpp:120-144 | the token in the buffer is normalized and, when valid, posted and counted |
| Indexing.Indexer.TokenizeAndIndex | src/indexer.cpp:99-169 | the text's terms are posted under the doc id in order and counted in the last record |
| Indexing.Indexer.IndexOpenToken | src/indexer.cpp:151-168 | the token the text ends in is terminated, posted and counted, as written without stemming |
| Indexing.Indexer.AddDocument | src/indexer.cpp:74-97 | the indexer stays valid; one exact record is appended, the terms of the content and then the title are posted under the doc id and counted in it, and the document total grows by one modulo 2^32 |
| Indexing.Indexer.AppendAndPost | src/indexer.cpp:76-94 | one exact record is appended and the terms of the content and then the title are posted under the doc id and counted in it; the document total is left alone |
| Indexing.Indexer.SortIndex | src/indexer.cpp:183-199 | the indexer stays valid; every posting list is put in order with the same ids and comes out strictly ascending, the terms stay, and the term count is recorded modulo 2^32 |
| Indexing.Indexer.SaveToFile | src/indexer.cpp:201-286 | the save succeeds exactly when all three files open; each file that opens before the first failure holds its encoding, the term file in strcmp order of all the terms |
| Indexing.Indexer.CollectKeys | src/indexer.cpp:252-261 | one entry per term of the index, none twice |
| Indexing.Indexer.SearchTerm | src/indexer.cpp:298-305 | the list under the cut and lower-cased key is returned, an empty one being created when there was none, and nothing else changes |
| TsvParsing.SkipSpace | src/build_index.cpp:10 | atoi goes on from the first byte that is not white space, having passed only white space |
| TsvParsing.DocIdOf | src/build_index.cpp:10 | the doc id is what atoi reads at the front of the line, unchanged when it is a non-negative value below 2^32 |
| TsvParsing.FieldEnd | src/build_index.cpp:17-35 | a copy loop stops within its limit and within the line |
| TsvParsing.FieldEndStops | src/build_index.cpp:17-35 | a copied field holds no byte that ends it, and copying stops at the end of the line, at such a byte or at the limit |
| TsvParsing.TabFrom | src/build_index.cpp:12 | the pointer stops at the first tab or at the end of the line |
| TsvParsing.UrlStep | src/build_index.cpp:16-22 | when the url field ends before the end of the line, the parse goes on with the title after one byte |
| TsvParsing.TitleStep | src/build_index.cpp:24-30 | when the title field ends before the end of the line, the parse goes on with the content after one byte |
| TsvParsing.ContentStep | src/build_index.cpp:32-38 | the content is copied and the line is accepted exactly when doc_id > 0 and url and content are non-empty |
| TsvParsing.ParseTsvGuarantees | src/build_index.cpp:7-39 | an accepted line has the atoi doc id, a positive id, non-empty url and content within their buffers, no tab in url or title and no line break in content; a line with no tab is refused |
| TsvParsing.ParseUrlGuarantees | src/build_index.cpp:16-38 | what the parse from the url on accepts has the given id and the shape above |
| TsvParsing.ParseTitleGuarantees | src/build_index.cpp:24-38 | what the parse from the title on accepts has the given id and the shape above |
| TsvParsing.NoEndIn | src/build_index.cpp:17-33 | a copied field holds no byte that ends its kind of field |
| TsvParsing.CopyField | src/build_index.cpp:16-20 | a copy loop returns the bytes up to where FieldEnd says, and stops there |
| TsvParsing.ParseTsvLine | src/build_index.cpp:7-39 | parse_tsv_line returns true exactly when the line parses, sets doc_id from atoi in every case, and then returns exactly the parsed fields |
| TsvParsing.ParseFields | src/build_index.cpp:14-38 | the three copy loops and the final test accept exactly what the parse from the url on accepts, with the same fields |
| TsvParsing.DigitChar | scripts/export_for_indexer_tsv.py:62 | a digit value is written as its decimal digit |
| TsvParsing.Decimal | scripts/export_for_indexer_tsv.py:62 | the numeral Python writes is a non-empty run of digits without a leading zero for a positive number |
| TsvParsing.DigitsValueAppend | src/build_index.cpp:10 | reading a run of digits followed by more text reads the run first |
| TsvParsing.DecimalValue | src/build_index.cpp:10 | atoi reads back the value of the numeral Python writes |
| TsvParsing.AtoiOfDecimalLine | src/build_index.cpp:10 | atoi reads the id at the front of a written line, up to the tab |
| TsvParsing.FieldEndAt | src/build_index.cpp:17-19 | a field without ending bytes followed by one stops right there |
| TsvParsing.SuffixAt | src/build_index.cpp:7-39 | the tail of a line occurs at its position |
| TsvParsing.FieldThenRest | src/build_index.cpp:17-22 | a field and then its separator: the copy stops at the separator and the rest of the line comes after it |
| TsvParsing.NoEndsIn | src/build_index.cpp:17-33 | a field with no separator has no byte that ends it |
| TsvParsing.TitleRoundTrip | src/build_index.cpp:24-38 | a written title and content parse back to themselves |
| TsvParsing.UrlRoundTrip | src/build_index.cpp:16-38 | a written url, title and content parse back to themselves |
| TsvParsing.LineRoundTrip | src/build_index.cpp:7-39 | a line "id TAB url TAB title TAB content LF" with a positive id, fields free of separators and within the limits parses back to exactly those fields |
| TsvParsing.TabAfterDigits | src/build_index.cpp:12 | after the digits of the id the first tab is found right away |
| TsvParsing.TabFromSkips | src/build_index.cpp:12 | the search for a tab passes over bytes that are not tabs |
| TsvParsing.FieldEndFull | src/build_index.cpp:17-25 | a field that runs to its limit stops there whatever follows |
| TsvParsing.LongUrlSpills | src/build_index.cpp:16-30 | a url of 512 bytes is cut to 511, its last byte is stepped over as the tab, the title comes out empty and the real title runs into the content |
| TsvParsing.LongUrlRest | src/build_index.cpp:16-38 | the parse from a 512-byte url on yields the cut url, an empty title and the title joined to the content by a tab |
| TsvParsing.UrlCut | src/build_index.cpp:16-22 | copying a 512-byte url stops at 511 bytes, before the end of the line, and its last byte is then skipped |
| HtmlExport.Replace | scripts/export_for_indexer_tsv.py:26 | str.replace of one character keeps the length and changes exactly that character |
| HtmlExport.SafeText | scripts/export_for_indexer_tsv.py:25-26 | safe_text keeps the length, turns each tab, LF and CR into a space and keeps every other character |
| HtmlExport.SafeTextSeparatorFree | scripts/export_for_indexer_tsv.py:25-26 | safe_text leaves no tab, LF or CR, changes nothing in text without them, and brings in no NUL |
| HtmlExport.IndexFrom | scripts/export_for_indexer_tsv.py:9 | the search finds the first occurrence of the character from i on, or reaches the end |
| HtmlExport.RunFrom | scripts/export_for_indexer_tsv.py:10-11 | a run of letters or digits ends at the first character out of its class |
| HtmlExport.MatchLen | scripts/export_for_indexer_tsv.py:9-11 | a match of a pattern starts with its lead character and is never a single character |
| HtmlExport.SubAll | scripts/export_for_indexer_tsv.py:9-11 | re.sub by a space never lengthens the text |
| HtmlExport.SubAllChars | scripts/export_for_indexer_tsv.py:9-11 | re.sub brings in no character but the space |
| HtmlExport.SubHead | scripts/export_for_indexer_tsv.py:9-11 | a substitution starts with a space where a match starts and otherwise with the first character |
| HtmlExport.SubKeepsPrefix | scripts/export_for_indexer_tsv.py:9-11 | a stretch without the pattern's lead character is copied as it is |
| HtmlExport.RunFromExact | scripts/export_for_indexer_tsv.py:10-11 | a run ends where the first character out of the class is |
| HtmlExport.TagSurvivor | scripts/export_for_indexer_tsv.py:9 | a '<' that re.sub leaves in place starts no tag in the output either |
| HtmlExport.EntitySurvivor | scripts/export_for_indexer_tsv.py:10-11 | an '&' that re.sub leaves in place starts no entity in the output either |
| HtmlExport.EntityCopied | scripts/export_for_indexer_tsv.py:10-11 | behind a surviving '&', a stretch free of '&' is copied as it is |
| HtmlExport.NoMatchLeft | scripts/export_for_indexer_tsv.py:9-11 | once re.sub has run, no match of its pattern starts anywhere in the output |
| HtmlExport.SubAllIdempotent | scripts/export_for_indexer_tsv.py:9-11 | running a substitution twice gives what running it once does |
| HtmlExport.NoMatchIsIdentity | scripts/export_for_indexer_tsv.py:9-11 | a text with no match is left unchanged |
| HtmlExport.LeadingSpace | scripts/export_for_indexer_tsv.py:13 | the leading white space ends at the first other character |
| HtmlExport.SliceSingleSpaced | scripts/export_for_indexer_tsv.py:12-13 | a slice of single-spaced text is single-spaced |
| HtmlExport.Collapse | scripts/export_for_indexer_tsv.py:12 | collapsing whitespace runs empties only empty text and keeps whether the text starts with white space |
| HtmlExport.CollapseSingleSpaced | scripts/export_for_indexer_tsv.py:12 | after re.sub(r'\s+', ' ') every white space character is a plain space and no two are adjacent |
| HtmlExport.CollapseKeeps | scripts/export_for_indexer_tsv.py:12 | collapsing keeps every other character in order and brings in no character but the space |
| HtmlExport.LeadingSpaceNonSpace | scripts/export_for_indexer_tsv.py:13 | dropping leading white space keeps every other character |
| HtmlExport.TrailingSpace | scripts/export_for_indexer_tsv.py:13 | the trailing white space is a run of white space with another character or the start before it |
| HtmlExport.Strip | scripts/export_for_indexer_tsv.py:13 | str.strip gives the slice between leading and trailing white space, neither end of which is white space |
| HtmlExport.StripHtmlShape | scripts/export_for_indexer_tsv.py:8-13 | strip_html leaves no white space at either end and no two adjacent white space characters |
| HtmlExport.StripHtmlChars | scripts/export_for_indexer_tsv.py:8-13 | strip_html brings in no character but the space |
| HtmlExport.StripHtmlIsSafe | scripts/export_for_indexer_tsv.py:8-26 | cleaned text holds no tab, LF or CR, so safe_text leaves it unchanged |
| HtmlExport.CloseFrom | scripts/export_for_indexer_tsv.py:16 | the lazy group ends at the nearest closing h1 or h2 tag with no line break before it, or there is none |
| HtmlExport.HeadingFrom | scripts/export_for_indexer_tsv.py:16 | re.search finds the leftmost heading match, or none exists |
| HtmlExport.FallbackTitle | scripts/export_for_indexer_tsv.py:20-23 | without a heading the title is the cleaned page, its first 97 characters and "..." when it is longer than 100, or "Untitled" when it is empty |
| HtmlExport.EmptyHeadingGivesEmptyTitle | scripts/export_for_indexer_tsv.py:16-18 | a heading that cleans to nothing gives an empty title, not "Untitled" |
| HtmlExport.TitleChars | scripts/export_for_indexer_tsv.py:15-23 | a title holds only the page's own characters, spaces and the letters of "Untitled" and "..." |
| HtmlExport.TitleNulFree | scripts/export_for_indexer_tsv.py:15-23 | a page without NUL gives a title without NUL |
| HtmlExport.TitleIsSafe | scripts/export_for_indexer_tsv.py:15-26 | a title holds no tab, LF or CR, so safe_text leaves it unchanged |
| HtmlExport.ExportedNumbering | scripts/export_for_indexer_tsv.py:51-59 | ids count every fetched page, so written ids are those of kept pages, rise strictly and skip dropped pages |
| HtmlExport.ExportedCovers | scripts/export_for_indexer_tsv.py:51-65 | every kept page is written under its own id, after exactly the kept pages before it |
| HtmlExport.Fetched | scripts/export_for_indexer_tsv.py:46-49 | a positive limit keeps that many pages, and no limit or a limit of 0 keeps all |
| HtmlExport.LinesOf | scripts/export_for_indexer_tsv.py:62-63 | one line is written per row |
| HtmlExport.LinesOfAppend | scripts/export_for_indexer_tsv.py:62-63 | writing one more row appends its line |
| HtmlExport.ExportedStep | scripts/export_for_indexer_tsv.py:51-65 | one step of the loop writes the page numbered i + 1 when it is kept and then goes on with the rest |
| HtmlExport.ExportForIndexer | scripts/export_for_indexer_tsv.py:28-75 | the loop writes exactly the lines of the kept fetched pages numbered from 1 and returns how many it wrote |
| HtmlExport.ExportedLineParses | scripts/export_for_indexer_tsv.py:62 | a written line, encoded as UTF-8, is read back by parse_tsv_line into exactly the safe_text'ed fields when they are free of NUL and fit their buffers |
| HtmlExport.LineParses | scripts/export_for_indexer_tsv.py:62 | a line of separator-free, NUL-free fields that fit their buffers parses back field for field |
| HtmlExport.LineEncoding | scripts/export_for_indexer_tsv.py:62-63 | the UTF-8 bytes of a written line are the TSV line of its fields' bytes |
| HtmlExport.CleanNulFree | scripts/export_for_indexer_tsv.py:55-56 | a page without NUL gives a title and a text without NUL |
| HtmlExport.FallbackTitleFits | scripts/export_for_indexer_tsv.py:20-23 | a title chosen without a heading always fits the 511-byte title buffer |
| CrawlStore.Lower | scripts/crawler.py:81 | the result has the input's length and holds, position by position, the ASCII lower-case of each character |
| CrawlStore.FirstOf | scripts/crawler.py:79 | the returned index is the first position at or after the start holding one of the searched characters, or the length when none does |
| CrawlStore.SchemeEnd | scripts/crawler.py:79 | a non-zero result is the position of a ':' preceded by a valid scheme (a letter, then scheme characters) |
| CrawlStore.NetlocEnd | scripts/crawler.py:79 | the network location ends inside the text, after the leading "//" or not at all |
| CrawlStore.PartsShape | scripts/crawler.py:79 | the parsed scheme is empty or a valid scheme, the network location holds no '/', '?' or '#', and the path holds no '?' or '#' |
| CrawlStore.NormalizedShape | scripts/crawler.py:78-81 | every key normalize_url produces has no ASCII capital and no '?' or '#' |
| CrawlStore.FirstOfAppend | scripts/crawler.py:79 | appending text that starts with a searched character does not move the first hit |
| CrawlStore.SchemeEndAppend | scripts/crawler.py:79 | appending a query or fragment leaves the scheme where it was |
| CrawlStore.NetlocEndAppend | scripts/crawler.py:79 | appending a query or fragment leaves the network location where it was |
| CrawlStore.PathOfAppend | scripts/crawler.py:79 | appending a query or fragment leaves the path unchanged |
| CrawlStore.QueryAndFragmentDropped | scripts/crawler.py:78-81 | for every URL, appending anything that starts with '?' or '#' leaves its normalised key unchanged |
| CrawlStore.NetlocSplit | scripts/crawler.py:80 | after "//", network location and path put back together give the whole text when it has no '?' or '#' |
| CrawlStore.Schemed | scripts/crawler.py:78-81 | a URL made of a valid scheme, "://" and text without '?' or '#' normalises to its own lower-case form |
| CrawlStore.LowerTwice | scripts/crawler.py:81 | lower-casing is idempotent |
| CrawlStore.SchemelessParts | scripts/crawler.py:79 | text starting with "://" parses as all path, with empty scheme and network location |
| CrawlStore.NormalizeIdempotent | scripts/crawler.py:78-81 | normalising a normalised key gives it back exactly when the original URL had a scheme (both directions) |
| CrawlStore.SchemelessNotIdempotent | scripts/crawler.py:78-81 | "x" normalises to "://x" and that to "://://x": without a scheme every call adds another "://" |
| CrawlStore.WikiKey | scripts/crawler.py:78-81 | an article URL whose quoted title has no '?' or '#' normalises to the https prefix followed by the lower-cased title |
| CrawlStore.WikiUrlKey | scripts/crawler.py:78-81 | any article URL normalises to the prefix followed by the lower-cased title cut at its first '?' or '#' |
| CrawlStore.WikiScheme | scripts/crawler.py:79 | an article URL always parses with scheme "https", whatever the title holds |
| CrawlStore.FragmentExample | scripts/test_crawler.py:67 | the URL of page "Test" with "#section" appended normalises to ".../wiki/test" |
| CrawlStore.UpperCaseExample | scripts/test_crawler.py:68 | "HTTPS://TR.WIKIPEDIA.ORG/WIKI/PAGE" normalises to "https://tr.wikipedia.org/wiki/page" |
| CrawlStore.QueryExample | scripts/test_crawler.py:69 | the URL of page "Test" with "?query=1" appended normalises to ".../wiki/test" |
| CrawlStore.SaveInserts | scripts/crawler.py:250-263 | an unseen key is inserted as a new record holding the url, content, source, digest and equal crawl and create dates, with no update date; outcome 'new'; every other record kept |
| CrawlStore.SaveSkips | scripts/crawler.py:230-234 | an unforced save of an unchanged digest is 'skipped' and leaves the collection as it was |
| CrawlStore.SaveUpdates | scripts/crawler.py:236-249 | a forced save or a changed digest is 'updated': content, digest, crawl and update dates are set, url, source and create date are kept, and no other record changes |
| CrawlStore.SaveAgainSkips | scripts/crawler.py:223-263 | saving the same content a second time, unforced, is 'skipped' and changes nothing, whatever the first save did |
| CrawlStore.SaveGrows | scripts/crawler.py:223-263 | a save never drops a record, adds at most its own key, grows the collection by one exactly on 'new', and never reports an error |
| CrawlStore.UpdateNeedsChange | scripts/crawler.py:230-249 | the outcome is 'updated' exactly when the key exists and the save is forced or the digest differs |
| CrawlStore.SaveFrame | scripts/crawler.py:223-263 | afterwards the key holds a record whose url is the key, and every other record is as before |
| CrawlStore.SaveKeepsNormalized | scripts/crawler.py:223-263 | saving under a normalised key keeps every record filed under its own normalised url |
| CrawlStore.TitlesSnoc | scripts/crawler.py:168-170 | one more answer adds its titles at the end, or none when it stops the loop |
| CrawlStore.AskedSnoc | scripts/crawler.py:153 | a new request for min(cap, titles still missing) keeps the record of requests well formed |
| CrawlStore.Collect | scripts/crawler.py:152-175 | each request asks for min(cap, count minus titles gathered), a positive number; the titles are those of the answers, in order; the loop stops only with enough titles, with no answer left or after a failing answer |
| CrawlStore.CollectStopsAt | scripts/crawler.py:173-175 | a failing answer is the last request made |
| CrawlStore.CollectGoesOnAfterEmpty | scripts/crawler.py:168-170 | an answer with no titles does not stop the loop while titles are missing and answers remain |
| CrawlStore.CollectAsksAtMostCap | scripts/crawler.py:153 | no request asks for more than the cap |
| Crawling.KeyIsNormalizedUrl | scripts/crawler.py:306-307 | the key a crawled title is filed under is exactly normalize_url of its https://tr.wikipedia.org/wiki/ URL with the quoted title |
| Crawling.VisitRule | scripts/crawler.py:333-370 | for one title: only a fetched, long enough article whose save does not raise changes the collection (by an unforced save) and bumps processed; a missing or short article changes nothing; errors goes up exactly when counting raises or the save raises |
| Crawling.VisitKeepsBalance | scripts/crawler.py:354-357 | one title keeps processed equal to new + updated + skipped |
| Crawling.VisitGrows | scripts/crawler.py:354 | one title drops no document and adds at most one |
| Crawling.KeyIsNormal | scripts/crawler.py:306-307 | the key of a crawled title normalises to itself |
| Crawling.VisitKeepsNormalized | scripts/crawler.py:353-354 | one title keeps every record filed under its own normalised url |
| Crawling.CrawlReached | scripts/crawler.py:334-339 | a loop that stops for the target has a collection of at least target_document_count documents |
| Crawling.CrawlNeverOvershoots | scripts/crawler.py:334-339 | starting at or below the target, the loop never exceeds it and holds exactly the target when it stops for it |
| Crawling.CrawlKeepsBalance | scripts/crawler.py:332-370 | over a whole list of titles processed stays equal to new + updated + skipped |
| Crawling.CrawlKeepsNormalized | scripts/crawler.py:332-370 | over a whole list of titles every record stays under its own normalised url |
| Crawling.CrawlGrows | scripts/crawler.py:332-370 | the loop never loses a document |
| Crawling.CrawlKeepsHealthy | scripts/crawler.py:332-370 | the loop keeps the counters balanced and the collection no larger than the target |
| Crawling.RandomKeepsHealthy | scripts/crawler.py:271-325 | the random branch keeps the counters balanced and the collection within the target, and reports the target only when the collection holds exactly that many |
| Crawling.RandomKeepsNormalized | scripts/crawler.py:271-325 | the random branch keeps every record under its own normalised url |
| Crawling.Sent | scripts/crawler.py:120-121 | a continuation is sent exactly when there is one and it is non-empty, and then unchanged |
| Crawling.OneRequestWithoutContinuation | scripts/crawler.py:133-141 | a first answer without continuation, or a failing one, means exactly one request, for min(500, limit), without cmcontinue, and the titles of that answer |
| Crawling.PagingRequests | scripts/crawler.py:110-141 | every request asks for 1 to 500 members, the next one for min(500, limit minus titles gathered) with the current continuation, and there are never more requests than answers |
| Crawling.PagingExtends | scripts/crawler.py:129-131 | the titles gathered so far stay, in order, at the front |
| Crawling.GetCategoryMembers | scripts/crawler.py:103-144 | the titles and the requests made are those of the paging loop over the answers given, starting with no titles and no continuation |
| Crawling.GetRandomArticles | scripts/crawler.py:146-178 | the request loop with batches of at most 10: each request asks for min(10, still missing) titles and the titles are those answered, in order |
| Crawling.NextMark | scripts/crawler.py:386 | the first "/wiki/" at or after the start, or the length when there is none |
| Crawling.LastPiece | scripts/crawler.py:386 | the last piece is a suffix that follows a "/wiki/" (or is the whole rest) and contains no "/wiki/" |
| Crawling.WikiTitle | scripts/crawler.py:386 | None exactly when the url holds no "/wiki/"; otherwise a suffix of the url that follows a "/wiki/" and holds none itself |
| Crawling.Renewal | scripts/crawler.py:385-397 | a document is renewed exactly when its url holds a non-empty title whose unquoted form fetches an article and the save does not raise |
| Crawling.Plan | scripts/crawler.py:383-397 | the plan has an entry for every document of the collection |
| Crawling.Apply | scripts/crawler.py:383-397 | applying a plan keeps the set of urls |
| Crawling.Picked | scripts/crawler.py:395-397 | the renewed documents are among those considered |
| Crawling.ApplyStep | scripts/crawler.py:395-397 | one more document handled replaces its record when the plan renews it and changes nothing otherwise |
| Crawling.PickedStep | scripts/crawler.py:397 | one more document handled adds one to the count exactly when it is renewed |
| Crawling.ReindexedRecords | scripts/crawler.py:372-408 | a document is renewed exactly when it is older than the cutoff and its article is fetched again; a renewed one gets the new content and both dates now and keeps url, source and create date; any other is unchanged |
| Crawling.ShouldReindexVersusCutoff | scripts/crawler.py:216-221 | should_reindex accepts exactly the documents crawled at or before the cutoff, so it agrees with the query's strict bound except at equality |
| Crawling.Crawler.constructor | scripts/crawler.py:25-31 | the crawler starts on the given collection with every counter zero |
| Crawling.Crawler.SaveDocument | scripts/crawler.py:223-263 | the collection becomes what saving under the normalised url gives, and the counter of the outcome goes up by one |
| Crawling.Crawler.VisitTitle | scripts/crawler.py:333-370 | collection and counters become what one title of the loop makes of them |
| Crawling.Crawler.SaveArticle | scripts/crawler.py:353-354 | saving an article's page is an unforced save under the title's key, counted by its outcome |
| Crawling.Crawler.CrawlTitles | scripts/crawler.py:332-370 | the collection, the counters and the stop reason are those of the title loop |
| Crawling.Crawler.CrawlRandom | scripts/crawler.py:271-325 | the collection, the counters and the stop reason are those of the rounds of the random branch |
| Crawling.Crawler.CrawlCategory | scripts/crawler.py:327-370 | the title loop runs over the at most 5000 category members gathered by the paging loop |
| Crawling.Crawler.ReindexDocument | scripts/crawler.py:384-397 | a document is saved again, forced, exactly when it is refetched; then its record is refreshed in place, updated goes up by one, and the collection stays normalised |
| Crawling.Crawler.ReindexNext | scripts/crawler.py:383-397 | handling one more stale document extends the applied plan by it and keeps the count and the updated counter in step |
| Crawling.Crawler.ReindexOldDocuments | scripts/crawler.py:372-408 | the collection becomes the one where every stale, refetched document is renewed; the count is the number renewed and updated goes up by as much |
| FastCrawling.ProcessRule | scripts/fast_crawler.py:231-257 | an article yields a result exactly when it is fetched, counted without raising and long enough; processed goes up exactly then, errors exactly when counting raises; the result is 'error' exactly when the collection raises, and then, as for no result, the collection is unchanged |
| FastCrawling.ProcessSkipsSameDigest | scripts/fast_crawler.py:193-212 | the save is never forced: an update means the digest changed, and an unchanged digest is 'skipped' with the collection untouched |
| FastCrawling.ProcessAgreesWithVisit | scripts/fast_crawler.py:231-257 | processing one article changes the collection as the plain crawler's loop body does, and the counters alike unless the collection raises, when the fast crawler counts it as processed and the plain one as an error |
| FastCrawling.ProcessKeepsCovered | scripts/fast_crawler.py:246-249 | new + updated + skipped stay at most processed |
| FastCrawling.ProcessGrows | scripts/fast_crawler.py:246 | processing drops no document and adds at most one |
| FastCrawling.ProcessKeepsNormalized | scripts/fast_crawler.py:245-246 | processing keeps every record under its own normalised url |
| FastCrawling.FastCrawlStopsAtTarget | scripts/fast_crawler.py:271-282 | starting below the target, a pass never exceeds it and stops for it exactly when the collection holds the target |
| FastCrawling.FastCrawlKeepsCovered | scripts/fast_crawler.py:259-282 | a pass keeps new + updated + skipped at most processed |
| FastCrawling.FastCrawlGrows | scripts/fast_crawler.py:259-282 | a pass never loses a document and adds at most one per title |
| FastCrawling.FastCrawlKeepsNormalized | scripts/fast_crawler.py:259-282 | a pass keeps every record under its own normalised url |
| FastCrawling.FastRoundsStopAtTarget | scripts/fast_crawler.py:303-328 | starting at or below the target, run never exceeds it and reports it exactly when the collection holds the target |
| FastCrawling.FastRoundsStopOnEmptyBatch | scripts/fast_crawler.py:319-321 | an empty batch ends the run: the batches after it make no difference |
| FastCrawling.FastRoundsKeepCovered | scripts/fast_crawler.py:315-328 | run keeps new + updated + skipped at most processed |
| FastCrawling.FastRoundsGrow | scripts/fast_crawler.py:315-328 | run never loses a document |
| FastCrawling.FastRoundsKeepNormalized | scripts/fast_crawler.py:315-328 | run keeps every record under its own normalised url |
| FastCrawling.GetRandomArticlesBatch | scripts/fast_crawler.py:113-145 | the request loop with batches of at most 500: each request asks for min(500, still missing) titles, the titles are those answered, in order, and an answer without query.pages or an exception stops it |
| FastCrawling.FastCrawler.constructor | scripts/fast_crawler.py:34-39 | the crawler starts on the given collection with every counter zero |
| FastCrawling.FastCrawler.SaveDocument | scripts/fast_crawler.py:184-229 | the collection becomes what the unforced save under the normalised url gives (unchanged on 'error'), and the counter of the outcome goes up, none for 'error' |
| FastCrawling.FastCrawler.ProcessArticle | scripts/fast_crawler.py:231-257 | the result, the collection and the counters are those of processing the title |
| FastCrawling.FastCrawler.SaveArticle | scripts/fast_crawler.py:245-246 | saving an article's page is the unforced save under the title's key, counted by its outcome |
| FastCrawling.FastCrawler.CrawlParallel | scripts/fast_crawler.py:259-282 | the collection, the counters and the stop reason are those of a pass over the titles, one after another, checking the target after each |
| FastCrawling.FastCrawler.Run | scripts/fast_crawler.py:298-341 | the collection, the counters and the stop reason are those of the rounds over the batches given |

## Left out

- HTTP (`fetch_with_retry`, `fetch_article`, `urlopen`, retries, `time.sleep`): each upstream answer is an input. A title's article is a function of the title, and the answers of a paging loop are a finite sequence. Where the source would keep asking, the model stops when the sequence runs out.
- MongoDB (`find_one`, `insert_one`, `update_one`, `count_documents`, index creation): the collection is a map from normalised URL to record. A failing collection is a boolean input. A failing `count_documents` is not modelled.
- MD5, `urllib.parse.quote`/`unquote` and the regex word count of `count_words` are parameters of the crawler's environment. `time.time()` is one `now` per run.
- `urlparse` is modelled only as far as `normalize_url` uses it: a scheme before the first ':', a network location after "//", then the path up to '?' or '#'. Its handling of `;params`, IPv6 brackets and its scheme cache are not part of this model.
- `should_reindex` is modelled on whole-day age from epoch seconds. The local time zone and DST changes of `datetime.fromtimestamp` are not modelled.
- The order in which MongoDB returns stale documents: the re-crawl is proved for any order, since each document is renewed on its own.
- Logging, `print_stats` of both crawlers, `KeyboardInterrupt`, `client.close()`, and `run()` of `scripts/crawler.py` (its loop over configured sources is only a driver).
- `crawl_parallel`'s thread pool, `stats_lock` and `cancel_futures`: articles are processed one after another in the order of the titles. The overshoot that several threads in flight past the target can cause is not captured.
- `Crawling.Crawler.CrawlRandom` and `FastCrawling.FastCrawler.Run` take the title lists the random-article calls returned, as inputs. The request loop itself is `CrawlStore.Collect`.
- `Crawling.Crawler.ReindexOldDocuments`: requires every record to be filed under its own normalised url. `save_document` keeps that (`CrawlStore.SaveKeepsNormalized`), so every collection the crawler builds meets it.
- `IndexLoading.IndexLoader.TotalDocuments` and `TotalTerms` (`get_total_*`) are plain getters without a contract of their own.
- `get_avg_token_length` (floating point) and the `main()` functions of `src/search.cpp`, `src/build_index.cpp` and `src/tokenizer.cpp` (stdin, stdout, timing).
- The tokenizer's `long long` counters are unbounded integers: an overflow after 2^63 bytes is not modelled.
- `TsvParsing.DocIdOf`: atoi of a value outside the int range is undefined in C. The model reads the decimal value and keeps it modulo 2^32.
- The stack buffers of `build_index.cpp` are sequences with the source's limits (511, 511 and 99999 bytes). `fgets` splitting a line longer than 199999 bytes, and the main loop of `build_index`, are not modelled.
- Python's `\d` is taken as the ASCII digits; `\s` and `str.strip` use the full `str.isspace` class. `HtmlExport.ExportForIndexer` assumes a non-negative limit. A NUL inside a field is excluded from the round trip, since C stops reading there.
- `Indexing.Indexer` keeps its terms in a map and its documents in a sequence. `HashMaps.HashMap` and `DynamicArrays.DynamicArray` are modelled and proved separately as classes over arrays.
- `Indexing.Indexer.AddDocument`: requires the url and title to be shorter than 65536 bytes. The source sizes their buffers by a uint16 length, so a longer one overflows the buffer in `strcpy`.
- `IndexLoading.IndexLoader.LoadMetadata`: promises nothing about the header after a file that opens but is shorter than a whole header. `fread` has then filled part of it, and C leaves such a partly read object indeterminate.
- `Indexing.Indexer.SaveToFile`: requires fewer than 2^32 documents, terms and ids per list, since the counts are written as uint32. `fopen` results are boolean inputs. The raw `fwrite` of the metadata struct is modelled as its packed fields, without platform padding.
- `qsort` is modelled by its outcome: a sorted permutation, which `Indexing.StrOrderUnique` shows is unique for the term array.
- Destructors, `malloc`/`free` and `realloc` failure.
- `Postings.NegatePostings`: requires a document count below 2^32 - 1. At 2^32 - 1 the source's uint32 counter wraps and never ends the loop.
- `HashMaps.HashMap.constructor`: requires at least one bucket, since the hash is reduced modulo the bucket count.
- The `DEBUG_SEARCH` trace output of `find_term`.

## Findings

| source | as written | input that shows it | evidently intended | confidence | as-written member | corrected member |
|---|---|---|---|---|---|---|
| src/search.cpp:38 | parse_term goes on with an implicit AND only when the next token is `&&` or a word, so a `!` or `(` after a factor ends the whole query | the query "a !b" is evaluated as "a", and "a (b)" as "a"; the rest is ignored | the usage text says a space means AND, so "a !b" is a AND NOT b and every token is read | medium, not executed | QueryLanguage.NegationDropped | QueryLanguage.IntendedConsumesAll |
| src/indexer.cpp:151-154 | the token that ends a text is posted without the stemming the loop applies to every other token | with stemming on, the text "kitaplar" is posted as "kitaplar"; the same word followed by any separator is stemmed to "kitap" | every token is stemmed alike, so the last word of a text is found by its stem | high, not executed | Indexing.TrailingWordUnstemmed | Indexing.TrailingWordStemmed |
