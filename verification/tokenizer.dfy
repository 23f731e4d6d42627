/** The stand-alone word and number tokenizer of src/tokenizer.cpp
    (class TurkishTokenizer).

    A text is a byte string. A word starts at a letter (an ASCII letter or a
    UTF-8 multi-byte sequence of two or three bytes) and runs on through
    letters, and through an apostrophe or a hyphen only when a letter follows
    it; it is ASCII-lowercased. A number is a digit followed by digits and
    dots. Space, tab, LF and CR are skipped, and so is every other byte that
    starts neither a word nor a number.

    The reference definition is `Spans`: the (kind, start, end) triples of the
    tokens in input order. `Tokens` renders them, and the tokenizer's loop is
    proved to return exactly `Tokens(text)`. */
module Tokenizing {
  import opened Bytes
  import opened Wrappers

  /** The separators skipped before every token. */
  predicate IsSeparator(c: byte) { c == ' ' || c == '\t' || c == '\n' || c == '\r' }

  /** The two-byte UTF-8 Turkish letters ç Ç ğ Ğ ı ö Ö ü Ü (lead 0xC3) and
      ş Ş ı İ (lead 0xC5) as the source lists them. */
  predicate IsTurkishLetter(c1: byte, c2: byte)
  {
    (c1 as int == 0xC3 && c2 as int in {0xA7, 0x87, 0x9F, 0x9E, 0xB1, 0xB6, 0x96, 0xBC, 0x9C}) ||
    (c1 as int == 0xC5 && c2 as int in {0x9F, 0x9E, 0xB1, 0xB0})
  }

  /** Every Turkish pair has a lead byte below 0xE0, so the two-byte rule of
      LetterAt already accepts it: the Turkish test never changes the answer. */
  lemma TurkishLetterIsTwoByteLead(c1: byte, c2: byte)
    requires IsTurkishLetter(c1, c2)
    ensures 0xC0 <= c1 as int < 0xE0
  {
  }

  /** is_letter_at: where the letter starting at `pos` ends, or None when no
      letter starts there (and `pos` does not move). An ASCII letter is one
      byte; a lead byte in 0xC0..0xF4 followed by at least one byte is a
      two-byte letter when it is below 0xE0 (or the pair is Turkish), and a
      three-byte letter when it is below 0xF0 with two bytes following. */
  function LetterAt(text: seq<byte>, pos: nat): (r: Option<nat>)
    ensures r.Some? ==> pos < |text| && pos + 1 <= r.value <= pos + 3 && r.value <= |text|
    ensures r.Some? ==> IsAlpha(text[pos]) || text[pos] as int >= 0xC0
    ensures r == Some(pos + 1) <==> pos < |text| && IsAlpha(text[pos])
    ensures pos < |text| && 0xC0 <= text[pos] as int < 0xE0 && pos + 1 < |text| ==> r == Some(pos + 2)
    ensures pos < |text| && 0xE0 <= text[pos] as int < 0xF0 && pos + 2 < |text| ==> r == Some(pos + 3)
  {
    if pos >= |text| then None
    else
      var c := text[pos];
      if IsAlpha(c) then Some(pos + 1)
      else if 0xC0 <= c as int < 0xF5 && pos + 1 < |text| then
        if IsTurkishLetter(c, text[pos + 1]) then Some(pos + 2)
        else if c as int < 0xE0 then Some(pos + 2)
        else if c as int < 0xF0 && pos + 2 < |text| then Some(pos + 3)
        else None
      else None
  }

  /** An apostrophe or hyphen at `p` that a letter follows: the word goes on. */
  predicate Joined(text: seq<byte>, p: nat)
  {
    p + 1 < |text| && (text[p] == '\'' || text[p] == '-') && LetterAt(text, p + 1).Some?
  }

  /** A word cannot be continued at `e`. */
  predicate WordStops(text: seq<byte>, e: nat)
  {
    e == |text| || (e < |text| && LetterAt(text, e).None? && !Joined(text, e))
  }

  /** Where the word whose first letter ended at `p` ends: the inner loop of
      tokenize over letters, joined apostrophes and joined hyphens. */
  function WordEnd(text: seq<byte>, p: nat): (e: nat)
    requires p <= |text|
    ensures p <= e <= |text|
    ensures WordStops(text, e)
    decreases |text| - p
  {
    if p == |text| then p
    else if LetterAt(text, p).Some? then WordEnd(text, LetterAt(text, p).value)
    else if Joined(text, p) then WordEnd(text, LetterAt(text, p + 1).value)
    else p
  }

  predicate IsNumberByte(c: byte) { IsDigit(c) || c == '.' }

  /** Where a run of digits and dots starting at `p` ends. */
  function NumberEnd(text: seq<byte>, p: nat): (e: nat)
    requires p <= |text|
    ensures p <= e <= |text|
    ensures forall k | p <= k < e :: IsNumberByte(text[k])
    ensures e == |text| || !IsNumberByte(text[e])
    decreases |text| - p
  {
    if p < |text| && IsNumberByte(text[p]) then NumberEnd(text, p + 1) else p
  }

  datatype Kind = Word | Number

  /** A token's kind and its place [start, end) in the text. */
  datatype Span = Span(kind: Kind, start: nat, end: nat)

  /** The shape the tokenizer gives a span: a word starts at a letter and
      ends where it cannot be continued; a number starts at a digit, holds
      only digits and dots, and ends where they stop. */
  predicate SpanShape(text: seq<byte>, s: Span)
  {
    s.start < s.end <= |text| &&
    match s.kind
    case Word => LetterAt(text, s.start).Some? && WordStops(text, s.end)
    case Number =>
      IsDigit(text[s.start]) && (s.end == |text| || !IsNumberByte(text[s.end])) &&
      forall k | s.start <= k < s.end :: IsNumberByte(text[k])
  }

  /** The spans of the tokens found from `pos` on, in input order. */
  function SpansFrom(text: seq<byte>, pos: nat): (r: seq<Span>)
    requires pos <= |text|
    ensures forall i | 0 <= i < |r| :: pos <= r[i].start && SpanShape(text, r[i])
    ensures forall i, j | 0 <= i < j < |r| :: r[i].end <= r[j].start
    decreases |text| - pos
  {
    if pos == |text| then []
    else if IsSeparator(text[pos]) then SpansFrom(text, pos + 1)
    else if LetterAt(text, pos).Some? then
      var e := WordEnd(text, LetterAt(text, pos).value);
      [Span(Word, pos, e)] + SpansFrom(text, e)
    else if IsDigit(text[pos]) then
      var e := NumberEnd(text, pos);
      [Span(Number, pos, e)] + SpansFrom(text, e)
    else SpansFrom(text, pos + 1)
  }

  function Spans(text: seq<byte>): seq<Span>
  {
    SpansFrom(text, 0)
  }

  /** The token a span stands for: a word is ASCII-lowercased, a number is
      copied as it is. */
  function TokenText(text: seq<byte>, s: Span): (t: seq<byte>)
    requires SpanShape(text, s)
    ensures |t| == s.end - s.start
  {
    match s.kind
    case Word => AsciiLowerAll(text[s.start..s.end])
    case Number => text[s.start..s.end]
  }

  function Render(text: seq<byte>, spans: seq<Span>): (ts: seq<seq<byte>>)
    requires forall i | 0 <= i < |spans| :: SpanShape(text, spans[i])
    ensures |ts| == |spans|
    ensures forall i | 0 <= i < |spans| :: ts[i] == TokenText(text, spans[i])
  {
    if spans == [] then [] else [TokenText(text, spans[0])] + Render(text, spans[1..])
  }

  function TokensFrom(text: seq<byte>, pos: nat): seq<seq<byte>>
    requires pos <= |text|
  {
    Render(text, SpansFrom(text, pos))
  }

  /** What tokenize returns for `text`. */
  function Tokens(text: seq<byte>): seq<seq<byte>>
  {
    TokensFrom(text, 0)
  }

  /** The number of bytes in all tokens together (what total_chars adds up). */
  function TotalLength(ts: seq<seq<byte>>): nat
  {
    if ts == [] then 0 else TotalLength(ts[..|ts| - 1]) + |ts[|ts| - 1]|
  }

  lemma TotalLengthSnoc(ts: seq<seq<byte>>, t: seq<byte>)
    ensures TotalLength(ts + [t]) == TotalLength(ts) + |t|
  {
    assert (ts + [t])[..|ts|] == ts;
  }

  // ---------------------------------------------------------------------
  // What the tokens are

  /** Every token is non-empty, holds no upper-case ASCII letter, and is the
      (lowercased, for a word) text of its span; the spans come in input
      order without overlapping. */
  lemma TokensAreLowercasedSlices(text: seq<byte>)
    ensures |Tokens(text)| == |Spans(text)|
    ensures forall i | 0 <= i < |Tokens(text)| ::
      Tokens(text)[i] != [] && forall k | 0 <= k < |Tokens(text)[i]| :: !IsUpper(Tokens(text)[i][k])
    ensures forall i | 0 <= i < |Tokens(text)| ::
      var s := Spans(text)[i];
      s.start < s.end <= |text| &&
      Tokens(text)[i] == (if s.kind == Word then AsciiLowerAll(text[s.start..s.end]) else text[s.start..s.end])
    ensures forall i, j | 0 <= i < j < |Spans(text)| :: Spans(text)[i].end <= Spans(text)[j].start
  {
    var sp := Spans(text);
    var ts := Tokens(text);
    forall i | 0 <= i < |ts|
      ensures ts[i] != [] && forall k | 0 <= k < |ts[i]| :: !IsUpper(ts[i][k])
    {
      assert SpanShape(text, sp[i]);
      if sp[i].kind == Number {
        forall k | 0 <= k < |ts[i]| ensures !IsUpper(ts[i][k]) {
          assert ts[i][k] == text[sp[i].start + k];
        }
      }
    }
  }

  /** A text without letters and digits (only punctuation, separators and
      bytes that start no letter) yields no token. */
  lemma {:induction false} NoTokensWithoutLetters(text: seq<byte>, pos: nat)
    requires pos <= |text|
    requires forall k | pos <= k < |text| :: !IsDigit(text[k]) && !IsAlpha(text[k]) && text[k] as int < 0xC0
    ensures TokensFrom(text, pos) == []
    decreases |text| - pos
  {
    if pos < |text| {
      NoTokensWithoutLetters(text, pos + 1);
    }
  }

  /** The lead bytes of UTF-8 sequences are followed by continuation bytes
      (0x80 and above), as in well-formed UTF-8. */
  predicate ContinuationsHigh(text: seq<byte>)
  {
    forall i | 0 <= i < |text| && text[i] as int >= 0xC0 ::
      (i + 1 < |text| ==> IsHigh(text[i + 1])) &&
      (text[i] as int >= 0xE0 && i + 2 < |text| ==> IsHigh(text[i + 2]))
  }

  lemma LetterHasNoSeparator(text: seq<byte>, p: nat)
    requires ContinuationsHigh(text) && LetterAt(text, p).Some?
    ensures forall k | p <= k < LetterAt(text, p).value :: !IsSeparator(text[k])
  {
  }

  lemma {:induction false} WordHasNoSeparator(text: seq<byte>, p: nat)
    requires ContinuationsHigh(text) && p <= |text|
    ensures forall k | p <= k < WordEnd(text, p) :: !IsSeparator(text[k])
    decreases |text| - p
  {
    if p < |text| {
      if LetterAt(text, p).Some? {
        LetterHasNoSeparator(text, p);
        WordHasNoSeparator(text, LetterAt(text, p).value);
      } else if Joined(text, p) {
        LetterHasNoSeparator(text, p + 1);
        WordHasNoSeparator(text, LetterAt(text, p + 1).value);
      }
    }
  }

  /** In text whose multi-byte sequences are well formed, no token holds a
      space, tab, LF or CR: they only ever separate tokens. */
  lemma TokensHaveNoSeparator(text: seq<byte>)
    requires ContinuationsHigh(text)
    ensures forall i | 0 <= i < |Tokens(text)| ::
      forall k | 0 <= k < |Tokens(text)[i]| :: !IsSeparator(Tokens(text)[i][k])
  {
    var sp := Spans(text);
    var ts := Tokens(text);
    forall i | 0 <= i < |ts|
      ensures forall k | 0 <= k < |ts[i]| :: !IsSeparator(ts[i][k])
    {
      var s := sp[i];
      assert SpanShape(text, s);
      if s.kind == Word {
        LetterHasNoSeparator(text, s.start);
        WordHasNoSeparator(text, LetterAt(text, s.start).value);
        assert s.end == WordEnd(text, LetterAt(text, s.start).value) by {
          SpanIsWordEnd(text, 0, i);
        }
        forall k | 0 <= k < |ts[i]| ensures !IsSeparator(ts[i][k]) {
          assert ts[i][k] == AsciiLower(text[s.start + k]);
        }
      } else {
        forall k | 0 <= k < |ts[i]| ensures !IsSeparator(ts[i][k]) {
          assert ts[i][k] == text[s.start + k];
        }
      }
    }
  }

  /** A word span ends where WordEnd puts it. */
  lemma {:induction false} SpanIsWordEnd(text: seq<byte>, pos: nat, i: nat)
    requires pos <= |text| && i < |SpansFrom(text, pos)|
    ensures var s := SpansFrom(text, pos)[i];
      s.kind == Word ==> LetterAt(text, s.start).Some? && s.end == WordEnd(text, LetterAt(text, s.start).value)
    decreases |text| - pos
  {
    if pos < |text| {
      if IsSeparator(text[pos]) {
        SpanIsWordEnd(text, pos + 1, i);
      } else if LetterAt(text, pos).Some? {
        if i > 0 {
          SpanIsWordEnd(text, WordEnd(text, LetterAt(text, pos).value), i - 1);
        }
      } else if IsDigit(text[pos]) {
        if i > 0 {
          SpanIsWordEnd(text, NumberEnd(text, pos), i - 1);
        }
      } else {
        SpanIsWordEnd(text, pos + 1, i);
      }
    }
  }

  /** Malformed UTF-8 shows the limit of the rule above: a lead byte 0xC3
      followed by a space is taken as a two-byte letter, so the space ends up
      inside the word. */
  lemma SpaceAfterLeadByte()
    ensures Tokens("Ã a") == ["Ã a"]
  {
    var text: seq<byte> := "Ã a";
    assert LetterAt(text, 0) == Some(2);
    assert WordEnd(text, 2) == 3 by {
      assert LetterAt(text, 2) == Some(3);
    }
    assert SpansFrom(text, 3) == [];
    assert SpansFrom(text, 0) == [Span(Word, 0, 3)];
    assert TokenText(text, Span(Word, 0, 3)) == "Ã a";
  }

  // ---------------------------------------------------------------------
  // The tokenizer

  /** to_lowercase: a copy of the token with 'A'..'Z' lowered. */
  method LowercaseCopy(token: seq<byte>) returns (result: seq<byte>)
    ensures result == AsciiLowerAll(token)
  {
    result := token;
    var i := 0;
    while i < |result|
      invariant i <= |result| == |token|
      invariant forall k | 0 <= k < i :: result[k] == AsciiLower(token[k])
      invariant forall k | i <= k < |result| :: result[k] == token[k]
    {
      if IsUpper(result[i]) {
        result := result[i := (result[i] as int + 32) as char];
      }
      i := i + 1;
    }
  }

  /** The loop that skips separators: nothing is found in between. */
  method SkipSeparators(text: seq<byte>, pos: nat) returns (p: nat)
    requires pos <= |text|
    ensures pos <= p <= |text|
    ensures p == |text| || !IsSeparator(text[p])
    ensures TokensFrom(text, p) == TokensFrom(text, pos)
  {
    p := pos;
    while p < |text| && IsSeparator(text[p])
      invariant pos <= p <= |text|
      invariant SpansFrom(text, p) == SpansFrom(text, pos)
    {
      p := p + 1;
    }
  }

  /** The word loop: letters, and an apostrophe or hyphen with a letter after. */
  method ScanWord(text: seq<byte>, p: nat) returns (e: nat)
    requires p <= |text|
    ensures e == WordEnd(text, p)
  {
    e := p;
    while e < |text|
      invariant p <= e <= |text|
      invariant WordEnd(text, e) == WordEnd(text, p)
      decreases |text| - e
    {
      var next := LetterAt(text, e);
      if next.Some? {
        e := next.value;
        continue;
      }
      if text[e] == '\'' && e + 1 < |text| {
        next := LetterAt(text, e + 1);
        if next.Some? {
          e := next.value;
          continue;
        }
      }
      if text[e] == '-' && e + 1 < |text| {
        next := LetterAt(text, e + 1);
        if next.Some? {
          e := next.value;
          continue;
        }
      }
      break;
    }
  }

  /** The number loop: digits and dots. */
  method ScanNumber(text: seq<byte>, p: nat) returns (e: nat)
    requires p <= |text|
    ensures e == NumberEnd(text, p)
  {
    e := p;
    while e < |text| && IsNumberByte(text[e])
      invariant p <= e <= |text|
      invariant NumberEnd(text, e) == NumberEnd(text, p)
    {
      e := e + 1;
    }
  }

  /** One pass of tokenize's outer loop after the separators: the word or
      number starting at `pos`, or no token when the byte there starts
      neither (it is skipped), and where scanning goes on. */
  method ScanToken(text: seq<byte>, pos: nat) returns (token: Option<seq<byte>>, next: nat)
    requires pos < |text| && !IsSeparator(text[pos])
    ensures pos < next <= |text|
    ensures token.Some? ==> TokensFrom(text, pos) == [token.value] + TokensFrom(text, next)
    ensures token.None? ==> TokensFrom(text, pos) == TokensFrom(text, next)
  {
    var start := pos;
    var first := LetterAt(text, pos);
    if first.Some? {
      next := ScanWord(text, first.value);
      var t := LowercaseCopy(text[start..next]);
      token := Some(t);
      return;
    }
    if IsDigit(text[pos]) {
      next := ScanNumber(text, pos);
      token := Some(text[start..next]);
      return;
    }
    token, next := None, pos + 1;
  }

  lemma Emitted(done: seq<seq<byte>>, t: seq<byte>, rest: seq<seq<byte>>)
    ensures done + ([t] + rest) == (done + [t]) + rest
  {
  }

  /** TurkishTokenizer with its three running counters (total_tokens,
      total_chars, total_bytes); get_token_count, get_total_chars and
      get_bytes_processed read them. */
  class Tokenizer {
    var totalTokens: int
    var totalChars: int
    var totalBytes: int

    constructor()
      ensures totalTokens == 0 && totalChars == 0 && totalBytes == 0
    {
      totalTokens, totalChars, totalBytes := 0, 0, 0;
    }

    /** tokenize: returns the tokens of `text` in order and adds the text's
        length, the number of tokens and their total length to the counters. */
    method Tokenize(text: seq<byte>) returns (tokens: seq<seq<byte>>)
      modifies this
      ensures tokens == Tokens(text)
      ensures totalBytes == old(totalBytes) + |text|
      ensures totalTokens == old(totalTokens) + |tokens|
      ensures totalChars == old(totalChars) + TotalLength(tokens)
    {
      tokens := [];
      var pos: nat := 0;
      totalBytes := totalBytes + |text|;
      while pos < |text|
        invariant pos <= |text|
        invariant tokens + TokensFrom(text, pos) == Tokens(text)
        invariant totalBytes == old(totalBytes) + |text|
        invariant totalTokens == old(totalTokens) + |tokens|
        invariant totalChars == old(totalChars) + TotalLength(tokens)
        decreases |text| - pos
      {
        pos := SkipSeparators(text, pos);
        if pos >= |text| {
          break;
        }
        ghost var rest := TokensFrom(text, pos);
        var token;
        token, pos := ScanToken(text, pos);
        if token.Some? {
          Emitted(tokens, token.value, TokensFrom(text, pos));
          assert rest == [token.value] + TokensFrom(text, pos);
          TotalLengthSnoc(tokens, token.value);
          tokens := tokens + [token.value];
          totalTokens := totalTokens + 1;
          totalChars := totalChars + |token.value|;
        }
      }
    }
  }
}
