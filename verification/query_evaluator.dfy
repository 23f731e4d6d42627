/** QueryEvaluator of src/search.cpp:13-93: recursive descent over the tokens
    of a BooleanQueryParser, evaluating as it parses against an IndexLoader.

    Each parse method is proved to compute what the grammar of QueryLanguage
    gives for the tokens still to come (the current token followed by those
    the parser has not yet produced), evaluated with the index's posting
    lists, and to leave exactly the tokens the grammar leaves. */
module QueryEvaluation {
  import opened Bytes
  import opened Wrappers
  import opened IndexTypes
  import opened IndexLoading
  import opened QueryLexer
  import opened QueryLanguage
  import opened Postings

  /** The posting list parse_factor copies for a word: the doc ids of the
      entry find_term lands on, or none. */
  function TermPostings(ts: seq<Term>, n: u32, w: seq<byte>): seq<nat>
    requires n <= |ts|
  {
    match SearchTerms(ts, n, CString(w))
    case None => []
    case Some(i) => ts[i].docIds
  }

  /** The lookup an index gives the query language. */
  function Index(ts: seq<Term>, n: u32): seq<byte> -> seq<nat>
  {
    if n <= |ts| then w => TermPostings(ts, n, w) else w => []
  }

  /** In a sorted table, a word that is no term gives the empty list, and a
      word that is one gives that term's doc ids. */
  lemma TermPostingsMeaning(ts: seq<Term>, n: u32, w: seq<byte>)
    requires n <= |ts| && TermsSorted(ts, n) && n <= 0x8000_0000
    ensures (forall i | 0 <= i < n :: CString(ts[i].term) != CString(w)) ==> TermPostings(ts, n, w) == []
    ensures forall i | 0 <= i < n && CString(ts[i].term) == CString(w) :: TermPostings(ts, n, w) == ts[i].docIds
  {
    SearchTermsComplete(ts, n, CString(w));
    forall i | 0 <= i < n && CString(ts[i].term) == CString(w)
      ensures TermPostings(ts, n, w) == ts[i].docIds
    {
      var j := SearchTerms(ts, n, CString(w)).value;
      if i < j {
        assert StrLess(CString(ts[i].term), CString(ts[j].term));
        StrLessIrreflexive(CString(w));
      } else if j < i {
        assert StrLess(CString(ts[j].term), CString(ts[i].term));
        StrLessIrreflexive(CString(w));
      }
    }
  }

  /** Posting lists that are ascending and hold ids 1..total make every query
      result ascending, within 1..total, and exactly its matching documents. */
  lemma IndexWellFormed(ts: seq<Term>, n: u32, total: nat)
    requires forall i | 0 <= i < |ts| :: Ascending(ts[i].docIds)
    requires forall i, x | 0 <= i < |ts| && x in ts[i].docIds :: 1 <= x <= total
    ensures WellFormed(Index(ts, n), total)
  {
    if n <= |ts| {
      forall w
        ensures Ascending(Index(ts, n)(w)) && forall x | x in Index(ts, n)(w) :: 1 <= x <= total
      {
        match SearchTerms(ts, n, CString(w))
        case None =>
        case Some(i) =>
          assert Index(ts, n)(w) == ts[i].docIds;
      }
    }
  }

  /** Eval of an OR node, kept apart so that the parse loops need not unfold
      Union. */
  lemma EvalOr(a: Query, b: Query, lookup: seq<byte> -> seq<nat>, total: nat)
    ensures Eval(Or(a, b), lookup, total) == Union(Eval(a, lookup, total), Eval(b, lookup, total))
  {
  }

  /** Eval of an AND node. */
  lemma EvalAnd(a: Query, b: Query, lookup: seq<byte> -> seq<nat>, total: nat)
    ensures Eval(And(a, b), lookup, total) == Intersection(Eval(a, lookup, total), Eval(b, lookup, total))
  {
  }

  /** Eval of a NOT node. */
  lemma EvalNot(a: Query, lookup: seq<byte> -> seq<nat>, total: nat)
    ensures Eval(Not(a), lookup, total) == Complement(Eval(a, lookup, total), total)
  {
  }

  /** The loop of parse_factor (src/search.cpp:70-73) that pushes a term's
      doc ids one by one into a fresh list. */
  method CopyPostings(ids: seq<u32>) returns (r: seq<nat>)
    ensures r == ids
  {
    r := [];
    var i := 0;
    while i < |ids|
      invariant i <= |ids| && r == ids[..i]
    {
      r := r + [ids[i]];
      i := i + 1;
    }
    assert ids[..i] == ids;
  }

  class QueryEvaluator {
    const parser: BooleanQueryParser
    const loader: IndexLoader
    /** AsWritten is the evaluator of src/search.cpp; Intended also reads a
        `!` or `(` after a factor as an implicit AND. */
    const grammar: Grammar
    var current: Token

    /** What evaluate() needs: a parser with its position in the query, a
        term count the term table holds, and a document count below 2^32 - 1,
        for which negate_postings' uint32 loop ends. */
    ghost predicate Ready()
      reads this, parser, loader
    {
      parser.Valid()
      && loader.metadata.totalUniqueTerms <= |loader.terms|
      && loader.metadata.totalDocuments < 0xFFFF_FFFF
    }

    /** Ready, and END is only current once the query is used up. */
    ghost predicate Valid()
      reads this, parser, loader
    {
      Ready() && (current == End ==> parser.pos == |parser.query|)
    }

    /** The current token and the tokens the parser has still to produce. */
    ghost function Remaining(): seq<Token>
      reads this, parser
      requires parser.Valid()
    {
      if current == End then [] else [current] + TokensFrom(parser.query, parser.pos)
    }

    /** The posting lists the loader's term table gives. */
    ghost function Lookup(): seq<byte> -> seq<nat>
      reads loader
    {
      Index(loader.terms, loader.metadata.totalUniqueTerms)
    }

    ghost function Total(): nat
      reads loader
    {
      loader.metadata.totalDocuments
    }

    /** The constructor (src/search.cpp:86); the current token is not yet read. */
    constructor (p: BooleanQueryParser, l: IndexLoader, g: Grammar)
      ensures parser == p && loader == l && grammar == g && current == End
    {
      parser := p;
      loader := l;
      grammar := g;
      current := End;
    }

    /** advance (src/search.cpp:19-21): the next token becomes current. */
    method Advance()
      requires Ready()
      modifies this, parser
      ensures Valid()
      ensures (current, parser.pos) == Lex(parser.query, old(parser.pos))
      ensures old(Valid()) ==> Remaining() == Skip(old(Remaining()))
    {
      current := parser.NextToken();
    }

    /** parse_expression (src/search.cpp:23-33). */
    method ParseExpression() returns (r: seq<nat>)
      requires Valid()
      modifies this, parser
      ensures Valid()
      ensures var (q, rest) := Expression(grammar, old(Remaining()));
        r == Eval(q, Lookup(), Total()) && Remaining() == rest
      decreases |Remaining()|, 4
    {
      ghost var start := Remaining();
      ghost var lookup, total := Lookup(), Total();
      ghost var q := Conjunction(grammar, start).0;
      r := ParseTerm();
      while current == OrOp
        invariant Valid() && Lookup() == lookup && Total() == total
        invariant |Remaining()| <= |start|
        invariant OrChain(grammar, q, Remaining()) == Expression(grammar, start)
        invariant r == Eval(q, lookup, total)
        decreases |Remaining()|
      {
        ghost var ahead := Remaining();
        Advance();
        ghost var before := Remaining();
        var right := ParseTerm();
        ghost var term := Conjunction(grammar, before);
        assert OrChain(grammar, q, ahead) == OrChain(grammar, Or(q, term.0), term.1);
        assert Lookup() == lookup && Total() == total;
        assert right == Eval(term.0, lookup, total);
        EvalOr(q, term.0, lookup, total);
        q := Or(q, term.0);
        r := UnionPostings(r, right);
      }
    }

    /** parse_term (src/search.cpp:35-47): an explicit AND is skipped, a word
        (and, in the Intended grammar, a `!` or `(`) starts the next factor at
        once. */
    method ParseTerm() returns (r: seq<nat>)
      requires Valid()
      modifies this, parser
      ensures Valid()
      ensures var (q, rest) := Conjunction(grammar, old(Remaining()));
        r == Eval(q, Lookup(), Total()) && Remaining() == rest
      decreases |Remaining()|, 2
    {
      ghost var start := Remaining();
      ghost var lookup, total := Lookup(), Total();
      ghost var q := Factor(grammar, start).0;
      r := ParseFactor();
      while ContinuesTerm(grammar, current)
        invariant Valid() && Lookup() == lookup && Total() == total
        invariant |Remaining()| <= |start|
        invariant AndChain(grammar, q, Remaining()) == Conjunction(grammar, start)
        invariant r == Eval(q, lookup, total)
        decreases |Remaining()|
      {
        ghost var ahead := Remaining();
        if current == AndOp {
          Advance();
        }
        ghost var before := Remaining();
        assert before == if Head(ahead) == AndOp then ahead[1..] else ahead;
        var right := ParseFactor();
        ghost var factor := Factor(grammar, before);
        assert AndChain(grammar, q, ahead) == AndChain(grammar, And(q, factor.0), factor.1);
        assert Lookup() == lookup && Total() == total;
        assert right == Eval(factor.0, lookup, total);
        EvalAnd(q, factor.0, lookup, total);
        q := And(q, factor.0);
        r := IntersectPostings(r, right);
      }
    }

    /** parse_factor (src/search.cpp:49-83). */
    method ParseFactor() returns (r: seq<nat>)
      requires Valid()
      modifies this, parser
      ensures Valid()
      ensures var (q, rest) := Factor(grammar, old(Remaining()));
        r == Eval(q, Lookup(), Total()) && Remaining() == rest
      decreases |Remaining()|, 0
    {
      ghost var start := Remaining();
      ghost var lookup, total := Lookup(), Total();
      if current == NotOp {
        Advance();
        ghost var after := Remaining();
        var operand := ParseFactor();
        ghost var f := Factor(grammar, after);
        assert Factor(grammar, start) == (Not(f.0), f.1);
        r := NegatePostings(operand, loader.metadata.totalDocuments);
        EvalNot(f.0, lookup, total);
      } else if current == LParen {
        Advance();
        ghost var after := Remaining();
        r := ParseExpression();
        ghost var e := Expression(grammar, after);
        assert r == Eval(e.0, lookup, total) && Remaining() == e.1;
        if current == RParen {
          Advance();
        }
        assert Factor(grammar, start) == (e.0, Remaining());
      } else if current.Word? {
        var w := current.word;
        var found := loader.FindTerm(w);
        Advance();
        assert Factor(grammar, start) == (Match(w), Remaining());
        r := [];
        if found.Some? {
          r := CopyPostings(loader.terms[found.value].docIds);
        }
        assert r == TermPostings(loader.terms, loader.metadata.totalUniqueTerms, w);
        assert r == Eval(Match(w), lookup, total);
      } else {
        r := [];
      }
    }

    /** evaluate (src/search.cpp:88-92): the result depends on the query and
        the index only, never on an earlier evaluation. */
    method Evaluate() returns (r: seq<nat>)
      requires Ready()
      modifies this, parser
      ensures Valid()
      ensures r == Eval(ParseQuery(grammar, Tokens(parser.query)), Lookup(), Total())
    {
      parser.Reset();
      Advance();
      r := ParseExpression();
    }
  }
}
