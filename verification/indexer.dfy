/** The index builder of src/indexer.cpp: it cuts each document's text into
    tokens, lower-cases and (optionally) stems them, posts every valid term
    under the document's id once, then sorts the posting lists and lays the
    three index files out as bytes.

    The DynamicArray of documents and the HashMap of posting lists the
    Indexer keeps (modelled on their own in DynamicArrays and HashMaps)
    appear here as their contents: a sequence of document records and a map
    from term to posting list. */
module Indexing {
  import opened Bytes
  import opened Wrappers
  import opened IndexTypes
  import opened IndexFormat
  import opened Stemming
  import opened Postings
  import opened IndexLoading

  // ------------------------------------------------------------ lower-casing

  /** The bytes to_lowercase raises by 32 (src/indexer.cpp:48-53): the ASCII
      capitals and every byte from 0xC0 to 0xDE. */
  predicate Raised(c: byte)
  {
    'A' <= c <= 'Z' || '\U{C0}' <= c <= '\U{DE}'
  }

  function LowerByte(c: cchar): cchar
  {
    if Raised(c) then (c as int + 32) as char else c
  }

  /** Position j of s starts the pair 'I' 0xB0, which to_lowercase rewrites
      as 0xC4 0xB1 (src/indexer.cpp:40-46). */
  predicate DottedIAt(s: seq<cchar>, j: int)
  {
    0 <= j && j + 1 < |s| && s[j] == 'I' && s[j + 1] == '\U{B0}'
  }

  function LowerAt(s: seq<cchar>, j: nat): cchar
    requires j < |s|
  {
    if DottedIAt(s, j) then '\U{C4}'
    else if DottedIAt(s, j - 1) then '\U{B1}'
    else LowerByte(s[j])
  }

  /** The C string to_lowercase leaves, byte by byte. */
  function Lowercase(s: seq<cchar>): seq<cchar>
  {
    seq(|s|, j requires 0 <= j < |s| => LowerAt(s, j))
  }

  /** Lower-casing keeps the length; the pair 'I' 0xB0 becomes 0xC4 0xB1,
      the bytes 'A'..'Z' and 0xC0..0xDE elsewhere gain 32, and every other
      byte is kept. */
  lemma LowercaseMeaning(s: seq<cchar>)
    ensures |Lowercase(s)| == |s|
    ensures forall j | 0 <= j < |s| && DottedIAt(s, j) ::
              Lowercase(s)[j] == '\U{C4}' && Lowercase(s)[j + 1] == '\U{B1}'
    ensures forall j | 0 <= j < |s| && !DottedIAt(s, j) && !DottedIAt(s, j - 1) && Raised(s[j]) ::
              Lowercase(s)[j] as int == s[j] as int + 32
    ensures forall j | 0 <= j < |s| && !DottedIAt(s, j) && !DottedIAt(s, j - 1) && !Raised(s[j]) ::
              Lowercase(s)[j] == s[j]
  {
  }

  /** On ASCII text the indexer's lower-casing is the query side's. */
  lemma LowercaseAscii(s: seq<cchar>)
    requires forall j | 0 <= j < |s| :: !IsHigh(s[j])
    ensures Lowercase(s) == AsciiLowerAll(s)
  {
  }

  /** On UTF-8 text it is not: the lead byte 0xC5 of "ş" becomes 0xE5, which
      no query lower-cased byte by byte in ASCII reproduces. */
  lemma LowercaseUtf8(s: seq<cchar>)
    requires s == "\U{C5}\U{9F}ehir"
    ensures Lowercase(s) == "\U{E5}\U{9F}ehir"
    ensures AsciiLowerAll(s) == s
  {
    assert !DottedIAt(s, 0) && !DottedIAt(s, 1);
  }

  /** to_lowercase (src/indexer.cpp:36-55), in place on a NUL-terminated
      buffer; the bytes from the NUL on are untouched. */
  method ToLowercase(str: array<byte>)
    requires Terminated(str[..])
    modifies str
    ensures str[..] == Lowercase(old(CString(str[..]))) + old(str[|CString(str[..])|..])
    ensures Terminated(str[..]) && CString(str[..]) == Lowercase(old(CString(str[..])))
  {
    ghost var s := CString(str[..]);
    ghost var orig := str[..];
    var i := 0;
    while str[i] != '\0'
      invariant i <= |s| && str.Length == |orig|
      invariant forall j | 0 <= j < i :: str[j] == LowerAt(s, j)
      invariant forall j | i < j < str.Length :: str[j] == orig[j]
      invariant i < |s| ==> str[i] == if DottedIAt(s, i - 1) then '\U{B1}' else s[i]
      invariant i == |s| ==> str[i] == orig[i]
      decreases |s| - i
    {
      var c := str[i];
      if c == 'I' || c == '\U{C4}' {
        if c == 'I' && str[i + 1] == '\U{B0}' {
          str[i] := '\U{C4}';
          str[i + 1] := '\U{B1}';
          i := i + 1;
          continue;
        }
      }
      if 'A' <= c <= 'Z' {
        str[i] := (c as int + 32) as char;
      } else if '\U{C0}' <= c <= '\U{DE}' {
        str[i] := (c as int + 32) as char;
      }
      i := i + 1;
    }
    assert str[..] == Lowercase(s) + orig[|s|..];
    assert orig[|s|..] == ['\0'] + orig[|s| + 1..];
    CStringOfTerminated(Lowercase(s), orig[|s| + 1..]);
    assert Lowercase(s) + orig[|s|..] == Lowercase(s) + ['\0'] + orig[|s| + 1..];
  }

  // ------------------------------------------------------------ valid terms

  /** is_valid_term (src/indexer.cpp:57-72): at least two bytes, one of them
      an ASCII letter. */
  predicate ValidTerm(t: seq<cchar>)
  {
    |t| >= 2 && exists j | 0 <= j < |t| :: IsAlpha(t[j])
  }

  method IsValidTerm(term: array<byte>) returns (valid: bool)
    requires Terminated(term[..])
    ensures valid == ValidTerm(CString(term[..]))
  {
    if term[0] == '\0' {
      return false;
    }
    var len := StrLen(term);
    if len < 2 {
      return false;
    }
    ghost var t := CString(term[..]);
    var hasLetter := false;
    var i := 0;
    while i < len
      invariant i <= len
      invariant forall j | 0 <= j < i :: !IsAlpha(t[j])
    {
      if IsAlpha(term[i]) {
        assert IsAlpha(t[i]);
        hasLetter := true;
        break;
      }
      i := i + 1;
    }
    return hasLetter;
  }

  // ------------------------------------------------------------ tokens

  /** The bytes a token is made of (src/indexer.cpp:109): ASCII letters and
      digits, '_', and every byte from 0x80 up. */
  predicate TokenByte(c: byte)
  {
    IsAlnum(c) || c == '_' || IsHigh(c)
  }

  /** The token buffer holds 255 bytes and the NUL. */
  const MAX_TOKEN: nat := 255

  predicate TokenShaped(t: seq<cchar>)
  {
    0 < |t| <= MAX_TOKEN && forall j | 0 <= j < |t| :: TokenByte(t[j])
  }

  /** The tokenizer's state after part of the text: the tokens a separator
      has closed, and the bytes kept of the token still open. */
  datatype Scan = Scan(closed: seq<seq<cchar>>, open: seq<cchar>)

  /** One byte of the loop of src/indexer.cpp:106-149. */
  function ScanStep(sc: Scan, c: cchar): Scan
  {
    if TokenByte(c) then
      if |sc.open| < MAX_TOKEN then sc.(open := sc.open + [c]) else sc
    else if sc.open != [] then Scan(sc.closed + [sc.open], [])
    else sc
  }

  /** The state after the whole of text, read left to right. */
  function ScanText(text: seq<cchar>): Scan
  {
    if text == [] then Scan([], []) else ScanStep(ScanText(text[..|text| - 1]), text[|text| - 1])
  }

  /** Every closed token, and the open one if any, is a non-empty run of
      token bytes no longer than the buffer. */
  lemma {:induction false} ScanTextShaped(text: seq<cchar>)
    ensures forall k | 0 <= k < |ScanText(text).closed| :: TokenShaped(ScanText(text).closed[k])
    ensures ScanText(text).open == [] || TokenShaped(ScanText(text).open)
    ensures |ScanText(text).open| <= MAX_TOKEN
    decreases |text|
  {
    if text != [] {
      ScanTextShaped(text[..|text| - 1]);
    }
  }

  /** Every token of text: the closed ones, then the one the text ends in. */
  function Tokens(text: seq<cchar>): seq<seq<cchar>>
  {
    var sc := ScanText(text);
    sc.closed + if sc.open == [] then [] else [sc.open]
  }

  /** The length of the run of token bytes text starts with. */
  function RunLength(text: seq<cchar>): (n: nat)
    ensures n <= |text|
    ensures forall j | 0 <= j < n :: TokenByte(text[j])
    ensures n < |text| ==> !TokenByte(text[n])
  {
    if text == [] || !TokenByte(text[0]) then 0 else 1 + RunLength(text[1..])
  }

  function Cut(t: seq<cchar>): seq<cchar>
  {
    if |t| <= MAX_TOKEN then t else t[..MAX_TOKEN]
  }

  lemma ScanTextSnoc(text: seq<cchar>, i: nat)
    requires i < |text|
    ensures ScanText(text[..i + 1]) == ScanStep(ScanText(text[..i]), text[i])
  {
    assert text[..i + 1][..i] == text[..i];
  }

  /** The reference reading of the tokens: the maximal runs of token bytes,
      left to right, each cut to its first 255 bytes. */
  function Runs(text: seq<cchar>): seq<seq<cchar>>
    decreases |text|
  {
    if text == [] then []
    else if !TokenByte(text[0]) then Runs(text[1..])
    else
      var n := RunLength(text);
      [Cut(text[..n])] + Runs(text[n..])
  }

  /** The scan from a given state, reading text from its first byte. */
  function ScanFrom(sc: Scan, text: seq<cchar>): Scan
    decreases |text|
  {
    if text == [] then sc else ScanFrom(ScanStep(sc, text[0]), text[1..])
  }

  lemma {:induction false} ScanFromSnoc(sc: Scan, text: seq<cchar>, c: cchar)
    ensures ScanFrom(sc, text + [c]) == ScanStep(ScanFrom(sc, text), c)
    decreases |text|
  {
    if text != [] {
      assert (text + [c])[1..] == text[1..] + [c];
      ScanFromSnoc(ScanStep(sc, text[0]), text[1..], c);
    }
  }

  lemma {:induction false} ScanTextFrom(text: seq<cchar>)
    ensures ScanText(text) == ScanFrom(Scan([], []), text)
    decreases |text|
  {
    if text != [] {
      var init := text[..|text| - 1];
      ScanTextFrom(init);
      assert text == init + [text[|text| - 1]];
      ScanFromSnoc(Scan([], []), init, text[|text| - 1]);
    }
  }

  /** Reading a run of token bytes only extends the open token, up to the
      buffer's size. */
  lemma {:induction false} ScanRun(closed: seq<seq<cchar>>, open: seq<cchar>, run: seq<cchar>)
    requires |open| <= MAX_TOKEN && forall j | 0 <= j < |run| :: TokenByte(run[j])
    ensures ScanFrom(Scan(closed, open), run) == Scan(closed, Cut(open + run))
    decreases |run|
  {
    if run != [] {
      var next := ScanStep(Scan(closed, open), run[0]);
      assert next.open == Cut(open + run[..1]);
      ScanRun(closed, next.open, run[1..]);
      assert open + run == (open + run[..1]) + run[1..];
      if |open + run[..1]| > MAX_TOKEN {
        assert Cut(open + run) == Cut(open + run[..1]);
      }
    }
  }

  /** Scanning from no open token closes exactly the runs of the text. */
  lemma {:induction false} ScanRuns(closed: seq<seq<cchar>>, text: seq<cchar>)
    ensures var sc := ScanFrom(Scan(closed, []), text);
      sc.closed + (if sc.open == [] then [] else [sc.open]) == closed + Runs(text)
    decreases |text|
  {
    if text != [] {
      if !TokenByte(text[0]) {
        ScanRuns(closed, text[1..]);
      } else {
        var n := RunLength(text);
        var run := text[..n];
        assert text == run + text[n..];
        ScanFromAppend(Scan(closed, []), run, text[n..]);
        ScanRun(closed, [], run);
        assert [] + run == run;
        assert ScanFrom(Scan(closed, []), text) == ScanFrom(Scan(closed, Cut(run)), text[n..]);
        assert Cut(run) != [];
        if n < |text| {
          var rest := text[n..];
          assert rest[0] == text[n] && rest[1..] == text[n + 1..];
          assert ScanFrom(Scan(closed, Cut(run)), rest) == ScanFrom(Scan(closed + [Cut(run)], []), text[n + 1..]);
          ScanRuns(closed + [Cut(run)], text[n + 1..]);
          assert Runs(rest) == Runs(text[n + 1..]);
        } else {
          assert text[n..] == [];
        }
      }
    }
  }

  lemma {:induction false} ScanFromAppend(sc: Scan, a: seq<cchar>, b: seq<cchar>)
    ensures ScanFrom(sc, a + b) == ScanFrom(ScanFrom(sc, a), b)
    decreases |a|
  {
    if a == [] {
      assert a + b == b;
    } else {
      assert (a + b)[0] == a[0] && (a + b)[1..] == a[1..] + b;
      ScanFromAppend(ScanStep(sc, a[0]), a[1..], b);
    }
  }

  /** The tokens are the maximal runs of token bytes, cut to 255 bytes
      (src/indexer.cpp:106-117). */
  lemma TokensAreRuns(text: seq<cchar>)
    ensures Tokens(text) == Runs(text)
  {
    ScanTextFrom(text);
    ScanRuns([], text);
  }

  // ------------------------------------------------------------ terms

  /** A token as it is posted (src/indexer.cpp:122-126): lower-cased, then
      stemmed when asked. */
  function Normalize(token: seq<cchar>, stem: bool): seq<cchar>
  {
    var lower := Lowercase(token);
    if stem then StemWord(lower).0 else lower
  }

  /** What one token contributes: its normalized form, if that is a valid
      term (src/indexer.cpp:128). */
  function Posted(token: seq<cchar>, stem: bool): seq<seq<cchar>>
  {
    var t := Normalize(token, stem);
    if ValidTerm(t) then [t] else []
  }

  /** The terms a run of tokens contributes, in order. */
  function ValidTerms(tokens: seq<seq<cchar>>, stem: bool): seq<seq<cchar>>
  {
    if tokens == [] then []
    else ValidTerms(tokens[..|tokens| - 1], stem) + Posted(tokens[|tokens| - 1], stem)
  }

  /** A token's normalized form is no longer than the token, and it is
      posted only when it is a valid term. */
  lemma PostedShaped(token: seq<cchar>, stem: bool)
    ensures |Posted(token, stem)| <= 1
    ensures forall k | 0 <= k < |Posted(token, stem)| ::
              ValidTerm(Posted(token, stem)[k]) && |Posted(token, stem)[k]| <= |token|
  {
  }

  /** The terms of a run of tokens are valid, at most one per token, and no
      longer than the longest token. */
  lemma {:induction false} ValidTermsShaped(tokens: seq<seq<cchar>>, stem: bool)
    ensures |ValidTerms(tokens, stem)| <= |tokens|
    ensures forall k | 0 <= k < |ValidTerms(tokens, stem)| :: ValidTerm(ValidTerms(tokens, stem)[k])
    ensures (forall k | 0 <= k < |tokens| :: |tokens[k]| <= MAX_TOKEN) ==>
              forall k | 0 <= k < |ValidTerms(tokens, stem)| :: |ValidTerms(tokens, stem)[k]| <= MAX_TOKEN
    decreases |tokens|
  {
    if tokens != [] {
      ValidTermsShaped(tokens[..|tokens| - 1], stem);
      PostedShaped(tokens[|tokens| - 1], stem);
    }
  }

  /** The program as written, and as its authors evidently meant it. */
  datatype Variant = AsWritten | Intended

  /** The terms tokenize_and_index posts for a text, in order. As written,
      the token the text ends in is never stemmed (src/indexer.cpp:151-154);
      the intended program stems it like every other token. */
  function TextTerms(v: Variant, stem: bool, text: seq<cchar>): seq<seq<cchar>>
  {
    var sc := ScanText(text);
    ValidTerms(sc.closed, stem) + if sc.open == [] then [] else Posted(sc.open, stem && v == Intended)
  }

  /** Every term posted for a text is valid and fits the token buffer. */
  lemma TextTermsShaped(v: Variant, stem: bool, text: seq<cchar>)
    ensures forall k | 0 <= k < |TextTerms(v, stem, text)| ::
              ValidTerm(TextTerms(v, stem, text)[k]) && |TextTerms(v, stem, text)[k]| <= MAX_TOKEN
  {
    var sc := ScanText(text);
    ScanTextShaped(text);
    ValidTermsShaped(sc.closed, stem);
    PostedShaped(sc.open, stem && v == Intended);
  }

  /** Closing one more token after the terms of earlier texts. */
  lemma ValidTermsSnoc(before: seq<seq<cchar>>, tokens: seq<seq<cchar>>, t: seq<cchar>, stem: bool)
    ensures before + ValidTerms(tokens, stem) + Posted(t, stem) == before + ValidTerms(tokens + [t], stem)
  {
    assert (tokens + [t])[..|tokens|] == tokens;
  }

  /** At the end of a text, the closed tokens and the open one, if any, make
      up the text's terms. */
  lemma TextTermsEnd(before: seq<seq<cchar>>, v: Variant, stem: bool, text: seq<cchar>)
    ensures var sc := ScanText(text);
      && (sc.open == [] ==> before + ValidTerms(sc.closed, stem) == before + TextTerms(v, stem, text))
      && (sc.open != [] ==>
            before + ValidTerms(sc.closed, stem) + Posted(sc.open, stem && v == Intended) == before + TextTerms(v, stem, text))
  {
  }

  /** Intended, every maximal run of the text is posted the same way,
      wherever it stands. */
  lemma IntendedPostsEveryRunAlike(stem: bool, text: seq<cchar>)
    ensures TextTerms(Intended, stem, text) == ValidTerms(Runs(text), stem)
  {
    TokensAreRuns(text);
    var sc := ScanText(text);
    if sc.open == [] {
      assert Tokens(text) == sc.closed;
      assert ValidTerms(sc.closed, stem) + [] == ValidTerms(sc.closed, stem);
    } else {
      assert Tokens(text)[..|Tokens(text)| - 1] == sc.closed;
    }
  }

  /** Lower-casing leaves lower-case ASCII alone. */
  lemma LowercaseOfLower(s: seq<cchar>)
    requires forall j | 0 <= j < |s| :: IsLower(s[j])
    ensures Lowercase(s) == s
  {
  }

  /** A text made of one run and nothing after it ends with that run open. */
  lemma ScanOneRun(text: seq<cchar>)
    requires TokenShaped(text)
    ensures ScanText(text) == Scan([], text)
  {
    ScanTextFrom(text);
    ScanRun([], [], text);
    assert [] + text == text;
  }

  /** As written, with stemming on, a text ending in "kitaplar" posts the
      word unstemmed. */
  lemma TrailingWordUnstemmed(text: seq<cchar>)
    requires text == "kitaplar"
    ensures TextTerms(AsWritten, true, text) == ["kitaplar"]
  {
    ScanOneRun(text);
    LowercaseOfLower(text);
    assert IsAlpha(text[0]);
    assert ValidTerms([], true) == [];
  }

  /** The intended program posts it as "kitap", as it does the same word
      anywhere else in a text. */
  lemma TrailingWordStemmed(text: seq<cchar>)
    requires text == "kitaplar"
    ensures TextTerms(Intended, true, text) == ["kitap"]
  {
    ScanOneRun(text);
    LowercaseOfLower(text);
    KitaplarExample(text);
    var stem := StemWord(text).0;
    assert IsAlpha(stem[0]);
    assert ValidTerms([], true) == [];
  }

  // ------------------------------------------------------------ posting

  /** Each doc id at most once. */
  predicate NoDup(s: seq<u32>)
  {
    forall i, j | 0 <= i < j < |s| :: s[i] != s[j]
  }

  /** The list get_or_create gives for a term: the present one, or a new
      empty one. */
  function ListOf(p: map<seq<cchar>, seq<u32>>, term: seq<cchar>): seq<u32>
  {
    if term in p then p[term] else []
  }

  /** Posting docId under term (src/indexer.cpp:129-141): the list is
      created if missing, and docId is appended unless it is already there,
      so the list keeps its order and gains docId and nothing else. */
  function AddPosting(p: map<seq<cchar>, seq<u32>>, term: seq<cchar>, docId: u32): map<seq<cchar>, seq<u32>>
  {
    var list := ListOf(p, term);
    p[term := if docId in list then list else list + [docId]]
  }

  lemma AddPostingMeaning(p: map<seq<cchar>, seq<u32>>, term: seq<cchar>, docId: u32)
    ensures AddPosting(p, term, docId).Keys == p.Keys + {term}
    ensures forall k | k in p && k != term :: AddPosting(p, term, docId)[k] == p[k]
    ensures ListOf(p, term) <= AddPosting(p, term, docId)[term] && docId in AddPosting(p, term, docId)[term]
    ensures forall x | x != docId :: x in AddPosting(p, term, docId)[term] <==> x in ListOf(p, term)
    ensures NoDup(ListOf(p, term)) ==> NoDup(AddPosting(p, term, docId)[term])
  {
  }

  /** Posting docId under each of terms in turn. */
  function PostAll(p: map<seq<cchar>, seq<u32>>, terms: seq<seq<cchar>>, docId: u32): map<seq<cchar>, seq<u32>>
  {
    if terms == [] then p
    else AddPosting(PostAll(p, terms[..|terms| - 1], docId), terms[|terms| - 1], docId)
  }

  lemma {:induction false} PostAllAppend(p: map<seq<cchar>, seq<u32>>, a: seq<seq<cchar>>, b: seq<seq<cchar>>, docId: u32)
    ensures PostAll(p, a + b, docId) == PostAll(PostAll(p, a, docId), b, docId)
    decreases |b|
  {
    if b == [] {
      assert a + b == a;
    } else {
      assert (a + b)[..|a + b| - 1] == a + b[..|b| - 1];
      PostAllAppend(p, a, b[..|b| - 1], docId);
    }
  }

  /** What posting a document's terms does to the inverted index: the terms
      become keys, the other lists are untouched, every term's list holds
      docId, no list gains any other id, and no list gets a duplicate. */
  lemma {:induction false} PostAllMeaning(p: map<seq<cchar>, seq<u32>>, terms: seq<seq<cchar>>, docId: u32)
    ensures forall k :: k in PostAll(p, terms, docId) <==> k in p || k in terms
    ensures forall k | k in p && k !in terms :: PostAll(p, terms, docId)[k] == p[k]
    ensures forall k | k in terms :: docId in PostAll(p, terms, docId)[k]
    ensures forall k, x | k in PostAll(p, terms, docId) && x != docId ::
              x in PostAll(p, terms, docId)[k] <==> x in ListOf(p, k)
    decreases |terms|
  {
    if terms != [] {
      var init, t := terms[..|terms| - 1], terms[|terms| - 1];
      PostAllMeaning(p, init, docId);
      var q := PostAll(p, init, docId);
      AddPostingMeaning(q, t, docId);
      forall k | k in terms ensures k in init || k == t {
        var i :| 0 <= i < |terms| && terms[i] == k;
        if i < |terms| - 1 {
          assert init[i] == k;
        }
      }
      forall k | k in init ensures k in terms {
        var i :| 0 <= i < |init| && init[i] == k;
        assert terms[i] == k;
      }
      forall k | k in q ensures ListOf(q, k) == q[k] {
      }
      forall k, x | k in PostAll(p, terms, docId) && x != docId
        ensures x in PostAll(p, terms, docId)[k] <==> x in ListOf(p, k)
      {
        if k != t {
          assert k in q;
        }
      }
    }
  }

  /** The key of an entry fits the token buffer and its list holds no id
      twice. */
  predicate ListFits(p: map<seq<cchar>, seq<u32>>, k: seq<cchar>)
    requires k in p
  {
    |k| <= MAX_TOKEN && NoDup(p[k])
  }

  /** Every term fits the token buffer and no posting list holds a doc id
      twice. */
  predicate WellPosted(p: map<seq<cchar>, seq<u32>>)
  {
    forall k {:trigger ListFits(p, k)} | k in p :: ListFits(p, k)
  }

  /** Posting terms that fit the buffer keeps every list free of duplicates
      (src/indexer.cpp:131-141, 156-165). */
  lemma {:induction false} PostAllWellPosted(p: map<seq<cchar>, seq<u32>>, terms: seq<seq<cchar>>, docId: u32)
    requires WellPosted(p) && forall k | 0 <= k < |terms| :: |terms[k]| <= MAX_TOKEN
    ensures WellPosted(PostAll(p, terms, docId))
    decreases |terms|
  {
    if terms != [] {
      var init, t := terms[..|terms| - 1], terms[|terms| - 1];
      PostAllWellPosted(p, init, docId);
      var q := PostAll(p, init, docId);
      AddPostingMeaning(q, t, docId);
      var r := AddPosting(q, t, docId);
      forall k | k in r
        ensures ListFits(r, k)
      {
        if k != t {
          assert ListFits(q, k);
        } else if t in q {
          assert ListFits(q, t);
        }
      }
    }
  }

  /** The record of the document being indexed, with k more tokens counted
      (src/indexer.cpp:143, 166); token_count is a uint32 and wraps. */
  function AddTokens(docs: seq<Document>, k: nat): (r: seq<Document>)
    requires docs != []
    ensures |r| == |docs| && r[..|r| - 1] == docs[..|docs| - 1]
  {
    var last := docs[|docs| - 1];
    docs[|docs| - 1 := last.(tokenCount := (last.tokenCount + k) % U32_MODULUS)]
  }

  lemma AddTokensAdd(docs: seq<Document>, a: nat, b: nat)
    requires docs != []
    ensures AddTokens(AddTokens(docs, a), b) == AddTokens(docs, a + b)
  {
    var c := docs[|docs| - 1].tokenCount;
    assert ((c + a) % U32_MODULUS + b) % U32_MODULUS == (c + a + b) % U32_MODULUS;
  }

  /** Counting one batch of terms after another is counting both at once. */
  lemma AddTokensAppend(docs: seq<Document>, done: seq<seq<cchar>>, more: seq<seq<cchar>>)
    requires docs != []
    ensures AddTokens(AddTokens(docs, |done|), |more|) == AddTokens(docs, |done + more|)
  {
    AddTokensAdd(docs, |done|, |more|);
  }

  /** The scan of src/indexer.cpp:131-137 for docId in a posting list. */
  method AlreadyAdded(list: seq<u32>, docId: u32) returns (found: bool)
    ensures found <==> docId in list
  {
    found := false;
    var j := 0;
    while j < |list|
      invariant j <= |list| && docId !in list[..j]
    {
      if list[j] == docId {
        found := true;
        break;
      }
      j := j + 1;
    }
    if !found {
      assert list[..j] == list;
    }
  }

  /** Lines 122-126 of src/indexer.cpp: the token in the buffer is
      lower-cased, then stemmed when asked. */
  method NormalizeToken(token: array<byte>, stem: bool)
    requires Terminated(token[..])
    modifies token
    ensures Terminated(token[..]) && CString(token[..]) == Normalize(old(CString(token[..])), stem)
  {
    ToLowercase(token);
    if stem {
      var _ := Stem(token);
    }
  }

  /** token[token_pos] = '\0' (src/indexer.cpp:120, 152): the buffer then
      holds the token's bytes as a C string. */
  method Terminate(token: array<byte>, n: nat)
    requires n < token.Length && forall j | 0 <= j < n :: token[j] != '\0'
    modifies token
    ensures Terminated(token[..]) && CString(token[..]) == old(token[..n])
  {
    ghost var open: seq<cchar> := token[..n];
    token[n] := '\0';
    assert token[..] == open + ['\0'] + token[n + 1..];
    CStringOfTerminated(open, token[n + 1..]);
  }

  /** A record as add_document builds it: its lengths are those of its url
      and title. */
  predicate Exact(d: Document)
  {
    |d.url| < U16_MODULUS && d.urlLength == |d.url| && |d.title| < U16_MODULUS && d.titleLength == |d.title|
  }

  lemma AddTokensLast(docs: seq<Document>, doc: Document, k: nat)
    ensures AddTokens(docs + [doc], k) == docs + [doc.(tokenCount := (doc.tokenCount + k) % U32_MODULUS)]
  {
    var d := doc.(tokenCount := (doc.tokenCount + k) % U32_MODULUS);
    assert (docs + [doc])[|docs| := d] == docs + [d];
  }

  /** The invariant of an indexer: the reserved block has its 256 bytes,
      every record is exact, every term fits the token buffer, and no posting
      list holds a doc id twice. */
  ghost predicate Consistent(docs: seq<Document>, p: map<seq<cchar>, seq<u32>>, m: IndexMetadata)
  {
    |m.reserved| == 256
    && (forall i {:trigger Exact(docs[i])} {:trigger Storable(docs[i])} | 0 <= i < |docs| :: Exact(docs[i]))
    && WellPosted(p)
  }

  /** The record add_document appends for a document. */
  function NewDocument(docId: u32, url: seq<cchar>, title: seq<cchar>, content: seq<cchar>, tokens: nat): (d: Document)
    requires |url| < U16_MODULUS && |title| < U16_MODULUS
    ensures Exact(d) && d.docId == docId && d.url == url && d.title == title
    ensures d.contentLength == |content| % U32_MODULUS && d.tokenCount == tokens % U32_MODULUS && d.uniqueTerms == 0
  {
    Document(docId, url, |url|, title, |title|, |content| % U32_MODULUS, tokens % U32_MODULUS, 0)
  }

  /** Counting the terms of the content and then of the title in a fresh
      record leaves it holding the number of both. */
  lemma NewDocumentCounted(docs: seq<Document>, docId: u32, url: seq<cchar>, title: seq<cchar>, content: seq<cchar>,
                           a: seq<seq<cchar>>, b: seq<seq<cchar>>)
    requires |url| < U16_MODULUS && |title| < U16_MODULUS
    ensures var added := docs + [NewDocument(docId, url, title, content, 0)];
      && added == AddTokens(added, 0) && [] + a == a
      && AddTokens(added, |a + b|) == docs + [NewDocument(docId, url, title, content, |a + b|)]
  {
    AddTokensLast(docs, NewDocument(docId, url, title, content, 0), |a + b|);
    AddTokensLast(docs, NewDocument(docId, url, title, content, 0), 0);
  }

  /** Adding a document keeps an indexer consistent: the new record is exact
      and the terms of the content and the title fit the token buffer. */
  lemma AddDocumentKeepsConsistent(docs: seq<Document>, p: map<seq<cchar>, seq<u32>>, m: IndexMetadata,
                                   docId: u32, url: seq<cchar>, title: seq<cchar>, content: seq<cchar>, v: Variant, stem: bool)
    requires Consistent(docs, p, m) && |url| < U16_MODULUS && |title| < U16_MODULUS
    ensures var terms := TextTerms(v, stem, content) + TextTerms(v, stem, title);
      Consistent(docs + [NewDocument(docId, url, title, content, |terms|)],
                 PostAll(p, terms, docId),
                 m.(totalDocuments := (m.totalDocuments + 1) % U32_MODULUS))
  {
    var a, b := TextTerms(v, stem, content), TextTerms(v, stem, title);
    TextTermsShaped(v, stem, content);
    TextTermsShaped(v, stem, title);
    PostAllWellPosted(p, a + b, docId);
    var d := NewDocument(docId, url, title, content, |a + b|);
    forall i | 0 <= i < |docs| + 1
      ensures Exact((docs + [d])[i])
    {
      if i < |docs| {
        assert Exact(docs[i]);
      }
    }
  }

  /** flags |= FLAG_STEMMED (src/indexer.cpp:28). */
  function WithStemmedFlag(f: u16): (r: u16)
    ensures (r / FLAG_STEMMED) % 2 == 1
    ensures r % FLAG_STEMMED == f % FLAG_STEMMED && r / (2 * FLAG_STEMMED) == f / (2 * FLAG_STEMMED)
  {
    if (f / FLAG_STEMMED) % 2 == 1 then f else f + FLAG_STEMMED
  }

  // ------------------------------------------------------------ sorting

  /** In ascending order, equal ids side by side. */
  predicate Nondecreasing(s: seq<u32>)
  {
    forall i, j | 0 <= i < j < |s| :: s[i] <= s[j]
  }

  /** The ids of s, in ascending order. */
  predicate SortedOf(r: seq<u32>, s: seq<u32>)
  {
    Nondecreasing(r) && multiset(r) == multiset(s)
  }

  /** qsort with compare_uint32 (src/indexer.cpp:171-175, 191-192) sorts a
      list into ascending order; an insertion sort stands in for the C
      library's qsort. */
  method SortIds(s: seq<u32>) returns (r: seq<u32>)
    ensures SortedOf(r, s)
  {
    r := [];
    var i := 0;
    while i < |s|
      invariant i <= |s| && Nondecreasing(r) && multiset(r) == multiset(s[..i])
    {
      var x := s[i];
      var q := 0;
      while q < |r| && r[q] <= x
        invariant q <= |r| && forall j | 0 <= j < q :: r[j] <= x
      {
        q := q + 1;
      }
      assert r == r[..q] + r[q..];
      r := r[..q] + [x] + r[q..];
      assert s[..i + 1] == s[..i] + [x];
      i := i + 1;
    }
    assert s[..i] == s;
  }

  /** A list holds no id twice exactly when no id occurs in it more than once. */
  lemma {:induction false} NoDupMultiset(s: seq<u32>)
    ensures NoDup(s) <==> forall x :: multiset(s)[x] <= 1
    decreases |s|
  {
    if s != [] {
      var init, last := s[..|s| - 1], s[|s| - 1];
      NoDupMultiset(init);
      assert s == init + [last];
      if NoDup(s) {
        assert NoDup(init);
        forall j | 0 <= j < |init|
          ensures init[j] != last
        {
          assert s[j] != s[|s| - 1];
        }
      }
      if NoDup(init) && last !in init {
        forall i, j | 0 <= i < j < |s|
          ensures s[i] != s[j]
        {
          if j == |s| - 1 {
            assert s[i] == init[i];
          } else {
            assert s[i] == init[i] && s[j] == init[j];
          }
        }
      }
      if forall x :: multiset(s)[x] <= 1 {
        assert multiset(s) == multiset(init) + multiset{last};
        assert forall x :: multiset(init)[x] <= 1 by {
          forall x ensures multiset(init)[x] <= 1 {
            assert multiset(s)[x] <= 1;
          }
        }
        assert multiset(s)[last] <= 1;
      }
    }
  }

  /** Sorting a list without repeats leaves it strictly ascending and
      without repeats: sort_index keeps every posting list fit for the
      merges of the search side. */
  lemma SortedDistinct(r: seq<u32>, s: seq<u32>)
    requires NoDup(s) && SortedOf(r, s)
    ensures NoDup(r) && Ascending(r)
  {
    NoDupMultiset(s);
    NoDupMultiset(r);
  }

  /** Replacing a list by one without repeats keeps the postings well
      posted. */
  lemma SortedKeepsWellPosted(p: map<seq<cchar>, seq<u32>>, k: seq<cchar>, list: seq<u32>)
    requires WellPosted(p) && k in p && NoDup(list)
    ensures WellPosted(p[k := list])
  {
    var q := p[k := list];
    forall j | j in q ensures ListFits(q, j) {
      assert ListFits(p, j);
    }
  }

  // ------------------------------------------------------------ saving

  /** The record save_to_file writes for key k (src/indexer.cpp:267-274):
      strlen(key) cut to a uint16, the key's bytes and its posting list. */
  function TermRecord(p: map<seq<cchar>, seq<u32>>, k: seq<cchar>): (t: Term)
    requires k in p && |p[k]| < U32_MODULUS
    ensures TermStorable(t) && t.term == k && t.docIds == p[k]
    ensures |k| < U16_MODULUS ==> StoredTerm(t) == t
  {
    Term(k, |k| % U16_MODULUS, p[k])
  }

  /** Every posting list fits a uint32 count. */
  predicate ListsCountable(p: map<seq<cchar>, seq<u32>>)
  {
    forall k | k in p :: |p[k]| < U32_MODULUS
  }

  /** The records of the keys, in the keys' order. */
  function TermRecords(p: map<seq<cchar>, seq<u32>>, keys: seq<seq<cchar>>): (ts: seq<Term>)
    requires ListsCountable(p) && forall i | 0 <= i < |keys| :: keys[i] in p
    ensures |ts| == |keys| && AllTermsStorable(ts)
    ensures forall i | 0 <= i < |keys| :: ts[i].term == keys[i] && ts[i].docIds == p[keys[i]]
  {
    seq(|keys|, i requires 0 <= i < |keys| => TermRecord(p, keys[i]))
  }

  /** Keys in strictly ascending strcmp order (src/indexer.cpp:177-181, 264). */
  predicate InStrOrder(keys: seq<seq<cchar>>)
  {
    forall i, j | 0 <= i < j < |keys| :: StrLess(keys[i], keys[j])
  }

  /** Keys that list every key of p and nothing else. */
  ghost predicate ListsKeys(keys: seq<seq<cchar>>, p: map<seq<cchar>, seq<u32>>)
  {
    forall k :: k in keys <==> k in p
  }

  /** No key listed twice. */
  predicate Distinct(keys: seq<seq<cchar>>)
  {
    forall i, j | 0 <= i < j < |keys| :: keys[i] != keys[j]
  }

  lemma HeadIn(s: seq<seq<cchar>>)
    ensures s == [] || s[0] in s
  {
  }

  /** The strcmp order of a set of keys is unique: whichever way the hash
      table hands out its nodes, qsort leaves the same term table. */
  lemma {:induction false} StrOrderUnique(a: seq<seq<cchar>>, b: seq<seq<cchar>>)
    requires InStrOrder(a) && InStrOrder(b) && forall k :: k in a <==> k in b
    ensures a == b
    decreases |a|
  {
    if a != [] {
      assert a[0] in b;
      assert b != [] && b[0] in a;
      if a[0] != b[0] {
        var i :| 0 <= i < |a| && a[i] == b[0];
        var j :| 0 <= j < |b| && b[j] == a[0];
        StrLessTransitive(a[0], b[0], a[0]);
        StrLessIrreflexive(a[0]);
      }
      forall k
        ensures k in a[1..] <==> k in b[1..]
      {
        if k in a[1..] {
          var i :| 1 <= i < |a| && a[i] == k;
          StrLessIrreflexive(k);
          assert k in a && k in b;
          var j :| 0 <= j < |b| && b[j] == k;
          assert j != 0 && b[1..][j - 1] == k;
        }
        if k in b[1..] {
          var j :| 1 <= j < |b| && b[j] == k;
          StrLessIrreflexive(k);
          assert k in b && k in a;
          var i :| 0 <= i < |a| && a[i] == k;
          assert i != 0 && a[1..][i - 1] == k;
        }
      }
      StrOrderUnique(a[1..], b[1..]);
      assert a == [a[0]] + a[1..] && b == [b[0]] + b[1..];
    } else {
      HeadIn(b);
    }
  }

  /** Putting x into its strcmp place among keys it is not one of. */
  method InsertKey(r: seq<seq<cchar>>, x: seq<cchar>) returns (r': seq<seq<cchar>>)
    requires InStrOrder(r) && x !in r
    ensures InStrOrder(r') && |r'| == |r| + 1 && forall k :: k in r' <==> k in r || k == x
  {
    var q := 0;
    while q < |r| && StrLess(r[q], x)
      invariant q <= |r| && forall j | 0 <= j < q :: StrLess(r[j], x)
    {
      q := q + 1;
    }
    forall j | q <= j < |r|
      ensures StrLess(x, r[j])
    {
      StrLessTotal(x, r[q]);
      if j > q {
        StrLessTransitive(x, r[q], r[j]);
      }
    }
    assert r == r[..q] + r[q..];
    r' := r[..q] + [x] + r[q..];
    forall i, j | 0 <= i < j < |r'|
      ensures StrLess(r'[i], r'[j])
    {
      if j < q {
        assert r'[i] == r[i] && r'[j] == r[j];
      } else if j == q {
        assert r'[i] == r[i] && r'[j] == x;
      } else if i < q {
        assert r'[i] == r[i] && r'[j] == r[j - 1];
      } else if i == q {
        assert r'[i] == x && r'[j] == r[j - 1];
      } else {
        assert r'[i] == r[i - 1] && r'[j] == r[j - 1];
      }
    }
  }

  /** qsort with compare_terms (src/indexer.cpp:177-181, 264): the keys in
      strcmp order; an insertion sort stands in for the C library's qsort. */
  method SortKeys(keys: seq<seq<cchar>>) returns (r: seq<seq<cchar>>)
    requires Distinct(keys)
    ensures InStrOrder(r) && |r| == |keys| && forall k :: k in r <==> k in keys
  {
    r := [];
    var i := 0;
    while i < |keys|
      invariant i <= |keys| && |r| == i && InStrOrder(r) && forall k :: k in r <==> k in keys[..i]
    {
      assert keys[i] !in keys[..i];
      r := InsertKey(r, keys[i]);
      assert keys[..i + 1] == keys[..i] + [keys[i]];
      i := i + 1;
    }
    assert keys[..i] == keys;
  }

  /** A saved term table is what the searcher's binary search needs: the
      loader reads it back unchanged, in strictly ascending strcmp order,
      and finds every key the indexer held. */
  lemma SavedTermsSearchable(p: map<seq<cchar>, seq<u32>>, keys: seq<seq<cchar>>)
    requires WellPosted(p) && ListsCountable(p) && InStrOrder(keys) && ListsKeys(keys, p)
    requires |keys| <= 0x8000_0000
    ensures var ts := TermRecords(p, keys);
      && DecodeInverted(EncodeInverted(ts)) == Some(ts)
      && TermsSorted(ts, |ts|)
      && forall k: seq<cchar> :: SearchTerms(ts, |ts| as u32, k).Some? <==> k in p
  {
    var ts := TermRecords(p, keys);
    InvertedRoundTrip(ts);
    forall i | 0 <= i < |ts|
      ensures StoredTerm(ts[i]) == ts[i] && CString(ts[i].term) == keys[i]
    {
      assert ListFits(p, keys[i]);
      CStringOfCChars(keys[i]);
    }
    assert StoredTerms(ts) == ts;
    forall k: seq<cchar>
      ensures SearchTerms(ts, |ts| as u32, k).Some? <==> k in p
    {
      SearchTermsComplete(ts, |ts| as u32, k);
      if k in p {
        var i :| 0 <= i < |keys| && keys[i] == k;
        assert CString(ts[i].term) == k;
      }
    }
  }

  /** One more document record after the first i. */
  lemma ForwardStep(ds: seq<Document>, i: nat)
    requires AllStorable(ds) && i < |ds|
    ensures AllStorable(ds[..i]) && AllStorable(ds[..i + 1])
    ensures EncodeDocuments(ds[..i + 1]) == EncodeDocuments(ds[..i]) + EncodeDocument(ds[i])
  {
    assert ds[..i + 1] == ds[..i] + [ds[i]];
    assert Storable(ds[i]);
    EncodeDocumentsSnoc(ds[..i], ds[i]);
  }

  /** Lines 224-238 of src/indexer.cpp: the document count twice, then one
      record per document. */
  method WriteForward(documents: seq<Document>) returns (out: seq<byte>)
    requires AllStorable(documents) && |documents| < U32_MODULUS
    ensures out == EncodeForward(documents)
  {
    var n := |documents|;
    var header := LE32(n) + LE32(n);
    out := header;
    var i := 0;
    while i < n
      invariant i <= n && AllStorable(documents[..i])
      invariant out == header + EncodeDocuments(documents[..i])
    {
      ForwardStep(documents, i);
      ConcatAssoc(header, EncodeDocuments(documents[..i]), EncodeDocument(documents[i]));
      out := out + EncodeDocument(documents[i]);
      i := i + 1;
    }
    assert documents[..i] == documents;
  }

  /** One more term record after the first i. */
  lemma InvertedStep(p: map<seq<cchar>, seq<u32>>, keys: seq<seq<cchar>>, i: nat)
    requires ListsCountable(p) && forall j | 0 <= j < |keys| :: keys[j] in p
    requires i < |keys|
    ensures EncodeTerms(TermRecords(p, keys[..i + 1]))
            == EncodeTerms(TermRecords(p, keys[..i])) + EncodeTerm(TermRecord(p, keys[i]))
  {
    assert TermRecords(p, keys[..i + 1]) == TermRecords(p, keys[..i]) + [TermRecord(p, keys[i])];
    EncodeTermsSnoc(TermRecords(p, keys[..i]), TermRecord(p, keys[i]));
  }

  /** Lines 248-275 of src/indexer.cpp: the term count twice, then one
      record per term of the sorted term array. */
  method WriteInverted(postings: map<seq<cchar>, seq<u32>>, keys: seq<seq<cchar>>) returns (out: seq<byte>)
    requires ListsCountable(postings) && |keys| < U32_MODULUS && forall i | 0 <= i < |keys| :: keys[i] in postings
    ensures out == EncodeInverted(TermRecords(postings, keys))
  {
    var n := |keys|;
    var header := LE32(n) + LE32(n);
    out := header;
    var i := 0;
    while i < n
      invariant i <= n && out == header + EncodeTerms(TermRecords(postings, keys[..i]))
    {
      InvertedStep(postings, keys, i);
      ConcatAssoc(header, EncodeTerms(TermRecords(postings, keys[..i])), EncodeTerm(TermRecord(postings, keys[i])));
      out := out + EncodeTerm(TermRecord(postings, keys[i]));
      i := i + 1;
    }
    assert keys[..i] == keys;
  }

  // ------------------------------------------------------------ lookup

  /** The key search_term looks up (src/indexer.cpp:299-302): strncpy keeps
      at most 255 bytes of the term, which are then lower-cased. */
  function SearchKey(term: seq<cchar>): (key: seq<cchar>)
    ensures |key| <= MAX_TOKEN && (|term| <= MAX_TOKEN ==> |key| == |term|)
  {
    LowercaseMeaning(term[..if |term| < MAX_TOKEN then |term| else MAX_TOKEN]);
    Lowercase(term[..if |term| < MAX_TOKEN then |term| else MAX_TOKEN])
  }

  /** A token that fits the buffer is looked up under the very key indexing
      without stemming posts it under. */
  lemma SearchKeyOfToken(token: seq<cchar>)
    requires |token| <= MAX_TOKEN
    ensures SearchKey(token) == Normalize(token, false)
  {
    assert token[..|token|] == token;
  }

  class Indexer {
    var documents: seq<Document>
    var postings: map<seq<cchar>, seq<u32>>
    var metadata: IndexMetadata
    /** options.use_stemming */
    var useStemming: bool

    ghost predicate Valid()
      reads this
    {
      Consistent(documents, postings, metadata)
    }

    /** The constructor (src/indexer.cpp:8-16); the clock's reading is a
        parameter. */
    constructor (now: u64)
      ensures Valid() && documents == [] && postings == map[] && !useStemming
      ensures metadata.magic == INDEX_MAGIC && metadata.version == INDEX_VERSION && metadata.flags == 0
      ensures metadata.totalDocuments == 0 && metadata.totalUniqueTerms == 0 && metadata.timestamp == now
      ensures forall i | 0 <= i < |metadata.reserved| :: metadata.reserved[i] == '\0'
    {
      documents := [];
      postings := map[];
      useStemming := false;
      metadata := IndexMetadata(INDEX_MAGIC, INDEX_VERSION, 0, 0, 0, now, 0, 0, 0, 0, seq(256, _ => '\0'));
    }

    /** set_options (src/indexer.cpp:25-30): turning stemming on sets
        FLAG_STEMMED; turning it off leaves the flags as they were. */
    method SetOptions(stemming: bool)
      requires Valid()
      modifies this
      ensures Valid() && useStemming == stemming
      ensures metadata == if stemming then old(metadata).(flags := WithStemmedFlag(old(metadata.flags))) else old(metadata)
      ensures documents == old(documents) && postings == old(postings)
    {
      useStemming := stemming;
      if useStemming {
        metadata := metadata.(flags := WithStemmedFlag(metadata.flags));
      }
    }

    /** Lines 129-143 of src/indexer.cpp (and 155-166): docId is posted under
        term unless its list already holds it, and the token is counted. */
    method PostTerm(docId: u32, term: seq<cchar>)
      requires documents != []
      modifies this
      ensures metadata == old(metadata) && useStemming == old(useStemming)
      ensures postings == AddPosting(old(postings), term, docId)
      ensures documents == AddTokens(old(documents), 1)
    {
      var list := if term in postings then postings[term] else [];
      var found := AlreadyAdded(list, docId);
      if !found {
        list := list + [docId];
      }
      postings := postings[term := list];
      var last := documents[|documents| - 1];
      documents := documents[|documents| - 1 := last.(tokenCount := (last.tokenCount + 1) % U32_MODULUS)];
    }

    /** The body of src/indexer.cpp:120-144 (and 152-167) for the token in
        the buffer: lower-case it, stem it when asked, and post it if valid. */
    method IndexToken(docId: u32, token: array<byte>, stem: bool)
      requires documents != [] && Terminated(token[..])
      modifies this, token
      ensures metadata == old(metadata) && useStemming == old(useStemming)
      ensures postings == PostAll(old(postings), Posted(old(CString(token[..])), stem), docId)
      ensures documents == AddTokens(old(documents), |Posted(old(CString(token[..])), stem)|)
    {
      ghost var t0 := CString(token[..]);
      NormalizeToken(token, stem);
      var valid := IsValidTerm(token);
      if valid {
        var n := StrLen(token);
        assert token[..n] == CString(token[..]);
        var term: seq<cchar> := token[..n];
        PostTerm(docId, term);
        assert [term][..0] == [];
      } else {
        assert AddTokens(old(documents), 0) == old(documents);
      }
    }

    /** tokenize_and_index (src/indexer.cpp:99-169): the text's terms are
        posted under docId in order and counted in the last record. As
        written (v == AsWritten) the token the text ends in is not stemmed. */
    method TokenizeAndIndex(docId: u32, text: seq<cchar>, v: Variant,
                            ghost before: seq<seq<cchar>>, ghost d0: seq<Document>, ghost p0: map<seq<cchar>, seq<u32>>)
      requires d0 != [] && postings == PostAll(p0, before, docId) && documents == AddTokens(d0, |before|)
      modifies this
      ensures metadata == old(metadata) && useStemming == old(useStemming)
      ensures postings == PostAll(p0, before + TextTerms(v, useStemming, text), docId)
      ensures documents == AddTokens(d0, |before + TextTerms(v, useStemming, text)|)
    {
      var token := new byte[256];
      var tokenPos := 0;
      var inToken := false;
      ghost var sc := Scan([], []);
      ghost var done: seq<seq<cchar>> := before;
      assert before + [] == before;
      var i := 0;
      while i < |text|
        invariant i <= |text| && documents != []
        invariant metadata == old(metadata) && useStemming == old(useStemming)
        invariant sc == ScanText(text[..i]) && done == before + ValidTerms(sc.closed, useStemming)
        invariant tokenPos == |sc.open| && token[..tokenPos] == sc.open
        invariant inToken <==> tokenPos > 0
        invariant postings == PostAll(p0, done, docId) && documents == AddTokens(d0, |done|)
      {
        var c := text[i];
        ScanTextSnoc(text, i);
        if TokenByte(c) {
          if !inToken {
            tokenPos := 0;
            inToken := true;
          }
          if tokenPos < 255 {
            token[tokenPos] := c;
            tokenPos := tokenPos + 1;
            assert token[..tokenPos] == sc.open + [c];
          }
        } else {
          if inToken && tokenPos > 0 {
            IndexOpenToken(docId, token, tokenPos, useStemming, sc.open, done, d0, p0);
            ValidTermsSnoc(before, sc.closed, sc.open, useStemming);
            done := done + Posted(sc.open, useStemming);
          }
          inToken := false;
          tokenPos := 0;
        }
        sc := ScanStep(sc, c);
        i := i + 1;
      }
      assert text[..i] == text;
      TextTermsEnd(before, v, useStemming, text);
      if inToken && tokenPos > 0 {
        IndexOpenToken(docId, token, tokenPos, useStemming && v == Intended, sc.open, done, d0, p0);
      }
    }

    /** Closing the open token: its bytes get a NUL and are indexed, and the
        totals move from the closed tokens to the closed tokens and this one. */
    method IndexOpenToken(docId: u32, token: array<byte>, tokenPos: nat, stem: bool,
                          ghost open: seq<cchar>, ghost done: seq<seq<cchar>>,
                          ghost d0: seq<Document>, ghost p0: map<seq<cchar>, seq<u32>>)
      requires d0 != [] && tokenPos < token.Length && token[..tokenPos] == open
      requires postings == PostAll(p0, done, docId) && documents == AddTokens(d0, |done|)
      modifies this, token
      ensures metadata == old(metadata) && useStemming == old(useStemming)
      ensures postings == PostAll(p0, done + Posted(open, stem), docId)
      ensures documents == AddTokens(d0, |done + Posted(open, stem)|)
    {
      Terminate(token, tokenPos);
      IndexToken(docId, token, stem);
      PostAllAppend(p0, done, Posted(open, stem), docId);
      AddTokensAppend(d0, done, Posted(open, stem));
    }

    /** add_document (src/indexer.cpp:74-97): one record is appended, the
        content and then the title are posted under docId, and the document
        total grows by one (a uint32, so it wraps). strcpy into buffers sized
        by the uint16 lengths needs the url and title to be shorter than
        65536 bytes. The indexer stays valid. */
    method AddDocument(docId: u32, url: seq<cchar>, title: seq<cchar>, content: seq<cchar>, v: Variant)
      requires Valid() && |url| < U16_MODULUS && |title| < U16_MODULUS
      modifies this
      ensures Valid() && useStemming == old(useStemming)
      ensures var terms := TextTerms(v, useStemming, content) + TextTerms(v, useStemming, title);
        && documents == old(documents) + [NewDocument(docId, url, title, content, |terms|)]
        && postings == PostAll(old(postings), terms, docId)
      ensures metadata == old(metadata).(totalDocuments := (old(metadata.totalDocuments) + 1) % U32_MODULUS)
    {
      ghost var d0, p0, m0 := documents, postings, metadata;
      AppendAndPost(docId, url, title, content, v);
      metadata := metadata.(totalDocuments := (metadata.totalDocuments + 1) % U32_MODULUS);
      AddDocumentKeepsConsistent(d0, p0, m0, docId, url, title, content, v, useStemming);
    }

    /** The record and postings part of add_document (src/indexer.cpp:76-94),
        with the total left alone. */
    method AppendAndPost(docId: u32, url: seq<cchar>, title: seq<cchar>, content: seq<cchar>, v: Variant)
      requires |url| < U16_MODULUS && |title| < U16_MODULUS
      modifies this
      ensures useStemming == old(useStemming) && metadata == old(metadata)
      ensures var terms := TextTerms(v, useStemming, content) + TextTerms(v, useStemming, title);
        && documents == old(documents) + [NewDocument(docId, url, title, content, |terms|)]
        && postings == PostAll(old(postings), terms, docId)
    {
      ghost var d0, p0 := documents, postings;
      ghost var a := TextTerms(v, useStemming, content);
      var doc := NewDocument(docId, url, title, content, 0);
      documents := documents + [doc];
      NewDocumentCounted(d0, docId, url, title, content, a, TextTerms(v, useStemming, title));
      ghost var b := TextTerms(v, useStemming, title);
      TokenizeAndIndex(docId, content, v, [], d0 + [doc], p0);
      assert postings == PostAll(p0, a, docId) && documents == AddTokens(d0 + [doc], |a|);
      TokenizeAndIndex(docId, title, v, a, d0 + [doc], p0);
      assert postings == PostAll(p0, a + b, docId);
      assert documents == d0 + [NewDocument(docId, url, title, content, |a + b|)];
    }
  
    /** sort_index (src/indexer.cpp:183-199): every posting list is put in
        ascending order, and the number of terms is recorded (a uint32, so
        it wraps). As no list holds an id twice, every list comes out
        strictly ascending, as the merges of the search side need, and the
        indexer stays valid. */
    method SortIndex()
      requires Valid()
      modifies this
      ensures Valid()
      ensures documents == old(documents) && useStemming == old(useStemming)
      ensures postings.Keys == old(postings).Keys
      ensures forall k | k in postings :: SortedOf(postings[k], old(postings)[k]) && Ascending(postings[k])
      ensures metadata == old(metadata).(totalUniqueTerms := |postings| % U32_MODULUS)
    {
      ghost var p0 := postings;
      var remaining := postings.Keys;
      while remaining != {}
        invariant remaining <= postings.Keys && postings.Keys == p0.Keys
        invariant documents == old(documents) && useStemming == old(useStemming) && metadata == old(metadata)
        invariant WellPosted(postings)
        invariant forall k | k in postings && k !in remaining :: SortedOf(postings[k], p0[k]) && Ascending(postings[k])
        invariant forall k | k in remaining :: postings[k] == p0[k]
        decreases remaining
      {
        var k :| k in remaining;
        var list := postings[k];
        assert ListFits(postings, k);
        if |list| > 0 {
          list := SortIds(list);
          SortedDistinct(list, postings[k]);
          SortedKeepsWellPosted(postings, k, list);
          postings := postings[k := list];
        }
        remaining := remaining - {k};
      }
      metadata := metadata.(totalUniqueTerms := |postings| % U32_MODULUS);
    }

    /** save_to_file (src/indexer.cpp:201-286). The three files are given by
        whether fopen succeeds on each; the result is what is written to
        each file. The files are written in turn and the first that does not
        open ends the save: the .meta file holds the header, the .forward
        file the documents, the .inverted file the terms in strcmp order
        (keys is the term array as qsort leaves it; StrOrderUnique shows
        there is only one such order). */
    method SaveToFile(metaOpens: bool, forwardOpens: bool, invertedOpens: bool)
      returns (ok: bool, meta: Option<seq<byte>>, forward: Option<seq<byte>>, inverted: Option<seq<byte>>,
               keys: seq<seq<cchar>>)
      requires Valid() && ListsCountable(postings)
      requires |documents| < U32_MODULUS && |postings| < U32_MODULUS
      ensures ok <==> metaOpens && forwardOpens && invertedOpens
      ensures meta == if metaOpens then Some(EncodeMetadata(metadata)) else None
      ensures forward == if metaOpens && forwardOpens then Some(EncodeForward(documents)) else None
      ensures inverted.Some? <==> ok
      ensures ok ==> |keys| == |postings| && InStrOrder(keys) && ListsKeys(keys, postings)
                     && inverted == Some(EncodeInverted(TermRecords(postings, keys)))
    {
      ok, meta, forward, inverted, keys := false, None, None, None, [];
      if !metaOpens {
        return;
      }
      meta := Some(EncodeMetadata(metadata));
      if !forwardOpens {
        return;
      }
      assert AllStorable(documents);
      var f := WriteForward(documents);
      forward := Some(f);
      if !invertedOpens {
        return;
      }
      var collected := CollectKeys();
      keys := SortKeys(collected);
      var f' := WriteInverted(postings, keys);
      inverted := Some(f');
      ok := true;
    }

    /** Lines 252-261 of src/indexer.cpp: one entry per node of the hash
        table, in whatever order the table hands them out. */
    method CollectKeys() returns (keys: seq<seq<cchar>>)
      ensures Distinct(keys) && ListsKeys(keys, postings) && |keys| == |postings|
    {
      keys := [];
      var remaining := postings.Keys;
      while remaining != {}
        invariant remaining <= postings.Keys && Distinct(keys)
        invariant forall k :: k in postings <==> k in keys || k in remaining
        invariant forall k | k in keys :: k !in remaining
        invariant |keys| + |remaining| == |postings|
        decreases remaining
      {
        var k :| k in remaining;
        keys := keys + [k];
        remaining := remaining - {k};
      }
    }

    /** search_term (src/indexer.cpp:298-305): at most 255 bytes of the term,
        lower-cased as at indexing; the list under that key is returned, and
        an empty one is created if there was none. */
    method SearchTerm(term: seq<cchar>) returns (list: seq<u32>)
      requires Valid()
      modifies this
      ensures Valid() && documents == old(documents) && metadata == old(metadata) && useStemming == old(useStemming)
      ensures var key := SearchKey(term);
        && postings == old(postings)[key := ListOf(old(postings), key)]
        && list == ListOf(old(postings), key)
    {
      var buffer := new byte[256](_ => '\0');
      var n := if |term| < MAX_TOKEN then |term| else MAX_TOKEN;
      forall j | 0 <= j < n {
        buffer[j] := term[j];
      }
      assert buffer[..] == term[..n] + ['\0'] + buffer[n + 1..];
      CStringOfTerminated(term[..n], buffer[n + 1..]);
      ToLowercase(buffer);
      var len := StrLen(buffer);
      var key: seq<cchar> := buffer[..len];
      assert key == SearchKey(term);
      if key !in postings {
        postings := postings[key := []];
        assert ListFits(postings, key);
        assert forall k | k in old(postings) :: ListFits(old(postings), k) ==> ListFits(postings, k);
      }
      list := postings[key];
    }
  }
}
