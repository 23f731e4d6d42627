/** The query lexer of src/searcher.h (BooleanQueryParser, lines 271-373).

    A query is a C string; reading at its end yields the NUL terminator, so
    `At` returns NUL at every index from |q| on. `Lex` is the token that
    next_token returns from position `pos` together with the position it
    leaves behind; the class below computes it step by step as the source does. */
module QueryLexer {
  import opened Bytes

  datatype Token = Word(word: seq<byte>) | AndOp | OrOp | NotOp | LParen | RParen | End

  /** A word keeps at most this many bytes (`char word[256]` with its NUL). */
  const MAX_WORD: nat := 255

  function At(q: seq<cchar>, i: nat): byte
  {
    if i < |q| then q[i] else '\0'
  }

  /** The bytes a word token is made of: alnum, '-', '\'' and bytes from 0x80. */
  predicate IsWordByte(c: byte)
  {
    IsAlnum(c) || c == '-' || c == '\'' || IsHigh(c)
  }

  /** The first position from `pos` on that is not whitespace. */
  function SkipSpace(q: seq<cchar>, pos: nat): (p: nat)
    requires pos <= |q|
    ensures pos <= p <= |q|
    ensures forall i | pos <= i < p :: IsSpace(q[i])
    ensures p < |q| ==> !IsSpace(q[p])
    decreases |q| - pos
  {
    if pos < |q| && IsSpace(q[pos]) then SkipSpace(q, pos + 1) else pos
  }

  /** The end of the run of word bytes starting at `pos`. */
  function WordEnd(q: seq<cchar>, pos: nat): (e: nat)
    requires pos <= |q|
    ensures pos <= e <= |q|
    ensures forall i | pos <= i < e :: IsWordByte(q[i])
    ensures e < |q| ==> !IsWordByte(q[e])
    decreases |q| - pos
  {
    if pos < |q| && IsWordByte(q[pos]) then WordEnd(q, pos + 1) else pos
  }

  /** The token next_token returns from `pos`, and the position after it. */
  function Lex(q: seq<cchar>, pos: nat): (r: (Token, nat))
    requires pos <= |q|
    ensures r.1 <= |q|
    ensures r.0 == End ==> r.1 == |q|
    ensures r.0 != End ==> pos < r.1
    decreases |q| - pos, 1
  {
    LexAt(q, SkipSpace(q, pos))
  }

  /** Lex once the whitespace before `p` is skipped. A byte that starts no
      token is passed over and lexing starts again after it. */
  function LexAt(q: seq<cchar>, p: nat): (r: (Token, nat))
    requires p <= |q|
    ensures r.1 <= |q|
    ensures r.0 == End ==> r.1 == |q|
    ensures r.0 != End ==> p < r.1
    decreases |q| - p, 0
  {
    if p == |q| then (End, p)
    else if q[p] == '(' then (LParen, p + 1)
    else if q[p] == ')' then (RParen, p + 1)
    else if q[p] == '!' then (NotOp, p + 1)
    else if q[p] == '|' && At(q, p + 1) == '|' then (OrOp, p + 2)
    else if q[p] == '&' && At(q, p + 1) == '&' then (AndOp, p + 2)
    else if WordEnd(q, p) > p then (WordAt(q, p, WordEnd(q, p)), WordEnd(q, p))
    else Lex(q, p + 1)
  }

  /** The word token of the run of word bytes from `p` to `e`: its first 255
      bytes, lower-cased. */
  function WordAt(q: seq<cchar>, p: nat, e: nat): (t: Token)
    requires p < e <= |q|
    ensures t.Word? && 1 <= |t.word| <= MAX_WORD && p + |t.word| <= e
    ensures e - p <= MAX_WORD ==> |t.word| == e - p
  {
    Word(AsciiLowerAll(q[p..if e - p <= MAX_WORD then e else p + MAX_WORD]))
  }

  /** The tokens of the query from `pos` on, up to but without END. */
  function TokensFrom(q: seq<cchar>, pos: nat): (ts: seq<Token>)
    requires pos <= |q|
    ensures End !in ts
    decreases |q| - pos
  {
    var (t, p) := Lex(q, pos);
    if t == End then [] else [t] + TokensFrom(q, p)
  }

  function Tokens(q: seq<cchar>): seq<Token>
  {
    TokensFrom(q, 0)
  }

  /** A word token holds 1 to 255 bytes with no upper-case ASCII letter: the
      lower-cased start of the run of word bytes from `s`, and the lexer moves
      past the whole run, up to a byte that cannot continue it. */
  lemma {:induction false} LexWord(q: seq<cchar>, pos: nat) returns (s: nat)
    requires pos <= |q| && Lex(q, pos).0.Word?
    ensures var (t, e) := Lex(q, pos);
      && 1 <= |t.word| <= MAX_WORD
      && pos <= s && s + |t.word| <= e
      && t.word == AsciiLowerAll(q[s..s + |t.word|])
      && (forall i | s <= i < e :: IsWordByte(q[i]))
      && (e == |q| || !IsWordByte(q[e]))
      && (e - s <= MAX_WORD ==> |t.word| == e - s)
    decreases |q| - pos
  {
    var p := SkipSpace(q, pos);
    var e := WordEnd(q, p);
    if e == p {
      s := LexWord(q, p + 1);
    } else {
      s := p;
    }
  }

  /** A run of word bytes from `p` to `e` that nothing continues ends at `e`. */
  lemma {:induction false} WordEndAt(q: seq<cchar>, p: nat, e: nat)
    requires p <= e <= |q|
    requires forall i | p <= i < e :: IsWordByte(q[i])
    requires e == |q| || !IsWordByte(q[e])
    ensures WordEnd(q, p) == e
    decreases e - p
  {
    if p < e {
      WordEndAt(q, p + 1, e);
    }
  }

  /** A word with no capitals is its own lower-case form. */
  lemma LowerOfLower(w: seq<byte>)
    requires forall i | 0 <= i < |w| :: !IsUpper(w[i])
    ensures AsciiLowerAll(w) == w
  {
  }

  /** Whitespace before a token changes nothing. */
  lemma LexSkipsSpace(q: seq<cchar>, pos: nat)
    requires pos < |q| && IsSpace(q[pos])
    ensures Lex(q, pos) == Lex(q, pos + 1)
  {
  }

  /** A byte that starts no token -- a lone '|' or '&', or any punctuation other
      than '(', ')' and '!' -- is skipped. */
  lemma LexSkipsStray(q: seq<cchar>, pos: nat)
    requires pos < |q|
    requires !IsSpace(q[pos]) && !IsWordByte(q[pos]) && q[pos] !in "()!"
    requires q[pos] == '|' ==> At(q, pos + 1) != '|'
    requires q[pos] == '&' ==> At(q, pos + 1) != '&'
    ensures Lex(q, pos) == Lex(q, pos + 1)
  {
  }

  /** The two-byte operators: a pair gives AND or OR. */
  lemma LexOperators()
    ensures Lex("&&b", 0) == (AndOp, 2) && Lex("||b", 0) == (OrOp, 2)
  {
  }

  /** A single '&' or '|' gives neither operator and is skipped. */
  lemma LexLoneOperators()
    ensures Lex("&b", 0) == (Word("b"), 2) && Lex("|", 0) == (End, 1)
  {
    WordEndAt("&b", 1, 2);
    LowerOfLower("b");
    assert "&b"[1..2] == "b";
  }

  /** A query using every kind of token. */
  const EXAMPLE: seq<cchar> := "(A || b) !c"

  /** The words of EXAMPLE, each with the position after it; the capital is lowered. */
  lemma ExampleWords()
    ensures Lex(EXAMPLE, 1) == (Word("a"), 2)
    ensures Lex(EXAMPLE, 5) == (Word("b"), 7)
    ensures Lex(EXAMPLE, 10) == (Word("c"), 11)
  {
    var q := EXAMPLE;
    WordEndAt(q, 1, 2);
    WordEndAt(q, 6, 7);
    WordEndAt(q, 10, 11);
    assert q[1..2] == "A" && q[6..7] == "b" && q[10..11] == "c";
    assert AsciiLowerAll("A") == "a";
    LowerOfLower("b");
    LowerOfLower("c");
  }

  /** The opening parenthesis and the OR operator of EXAMPLE. */
  lemma ExampleOperators()
    ensures Lex(EXAMPLE, 0) == (LParen, 1)
    ensures Lex(EXAMPLE, 2) == (OrOp, 5)
  {
  }

  /** The closing parenthesis, the NOT operator and the end of EXAMPLE. */
  lemma ExampleClosing()
    ensures Lex(EXAMPLE, 7) == (RParen, 8)
    ensures Lex(EXAMPLE, 8) == (NotOp, 10)
    ensures Lex(EXAMPLE, 11) == (End, 11)
  {
  }

  /** Each step below is one call of next_token on EXAMPLE. */
  lemma ExampleTokens()
    ensures Tokens(EXAMPLE) == [LParen, Word("a"), OrOp, Word("b"), RParen, NotOp, Word("c")]
  {
    var q := EXAMPLE;
    ExampleWords();
    ExampleOperators();
    ExampleClosing();
    assert TokensFrom(q, 11) == [];
    assert TokensFrom(q, 10) == [Word("c")];
    assert TokensFrom(q, 8) == [NotOp, Word("c")];
    assert TokensFrom(q, 7) == [RParen, NotOp, Word("c")];
    assert TokensFrom(q, 5) == [Word("b"), RParen, NotOp, Word("c")];
    assert TokensFrom(q, 2) == [OrOp, Word("b"), RParen, NotOp, Word("c")];
    assert TokensFrom(q, 1) == [Word("a"), OrOp, Word("b"), RParen, NotOp, Word("c")];
  }

  /** Lexing only moves forward, and the END token means the query is used up. */
  lemma {:induction false} TokensFromEnd(q: seq<cchar>, pos: nat)
    requires pos <= |q|
    ensures TokensFrom(q, pos) == [] <==> Lex(q, pos).0 == End
    ensures Lex(q, pos).0 == End ==> Lex(q, Lex(q, pos).1) == (End, |q|)
  {
  }

  /** next_token and reset (src/searcher.h:286-373). */
  class BooleanQueryParser {
    const query: seq<cchar>
    var pos: nat

    ghost predicate Valid()
      reads this
    {
      pos <= |query|
    }

    constructor (q: seq<cchar>)
      ensures Valid() && query == q && pos == 0
    {
      query := q;
      pos := 0;
    }

    /** skip_whitespace (src/searcher.h:291-295). */
    method SkipWhitespace()
      requires Valid()
      modifies this
      ensures Valid() && pos == SkipSpace(query, old(pos))
    {
      while pos < |query| && IsSpace(query[pos])
        invariant pos <= |query|
        invariant SkipSpace(query, pos) == SkipSpace(query, old(pos))
        decreases |query| - pos
      {
        pos := pos + 1;
      }
    }

    /** to_lowercase (src/searcher.h:297-303): ASCII capitals become small letters. */
    static method ToLowercase(word: seq<byte>) returns (r: seq<byte>)
      ensures r == AsciiLowerAll(word)
    {
      r := word;
      var i := 0;
      while i < |r|
        invariant 0 <= i <= |r| == |word|
        invariant r[..i] == AsciiLowerAll(word)[..i] && r[i..] == word[i..]
      {
        if 'A' <= r[i] <= 'Z' {
          r := r[i := (r[i] as int - 'A' as int + 'a' as int) as char];
        }
        i := i + 1;
      }
    }

    /** next_token (src/searcher.h:308-368): the token `Lex` describes, leaving
        `pos` where `Lex` says. */
    method NextToken() returns (t: Token)
      requires Valid()
      modifies this
      ensures Valid() && (t, pos) == Lex(query, old(pos))
      decreases |query| - pos
    {
      SkipWhitespace();
      ghost var p := pos;
      if pos == |query| {
        return End;
      }
      if query[pos] == '(' {
        pos := pos + 1;
        return LParen;
      }
      if query[pos] == ')' {
        pos := pos + 1;
        return RParen;
      }
      if query[pos] == '!' {
        pos := pos + 1;
        return NotOp;
      }
      if query[pos] == '|' && At(query, pos + 1) == '|' {
        pos := pos + 2;
        return OrOp;
      }
      if query[pos] == '&' && At(query, pos + 1) == '&' {
        pos := pos + 2;
        return AndOp;
      }
      var word := ScanWord();
      if |word| > 0 {
        var lowered := ToLowercase(word);
        return Word(lowered);
      }
      pos := pos + 1;
      t := NextToken();
    }

    /** The word loop of next_token (src/searcher.h:349-357): `pos` moves
        over the whole run of word bytes, of which the first 255 are kept. */
    method ScanWord() returns (word: seq<byte>)
      requires Valid()
      modifies this
      ensures Valid() && pos == WordEnd(query, old(pos))
      ensures word == query[old(pos)..if pos - old(pos) <= MAX_WORD then pos else old(pos) + MAX_WORD]
    {
      ghost var p := pos;
      word := [];
      while pos < |query| && IsWordByte(query[pos])
        invariant p <= pos <= |query|
        invariant WordEnd(query, pos) == WordEnd(query, p)
        invariant word == query[p..if pos - p <= MAX_WORD then pos else p + MAX_WORD]
        decreases |query| - pos
      {
        if |word| < MAX_WORD {
          word := word + [query[pos]];
        }
        pos := pos + 1;
      }
    }

    /** reset (src/searcher.h:370-372). */
    method Reset()
      modifies this
      ensures Valid() && pos == 0
    {
      pos := 0;
    }
  }
}
