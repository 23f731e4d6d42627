/** The query language of the search engine: the grammar the recursive-descent
    evaluator of src/search.cpp:23-83 follows, and what a query means.

      expression := term { "||" term }
      term       := factor { ["&&"] factor }
      factor     := "!" factor | "(" expression [")"] | word | (nothing)

    The parser works on the token list the lexer produces; its head is the
    evaluator's current token, and an empty list reads as END. A factor
    that starts with none of its tokens is an empty list of documents and
    consumes nothing. The loops build left-nested trees, as the evaluator
    combines `left` with each new `right`.

    `Grammar` selects which tokens carry on an implicit AND after a factor:
    the evaluator as written carries on only at a word, so a `!` or `(`
    after a factor ends the whole query; `Intended` also carries on at
    those two, as the usage text of src/search.cpp:103-110 says a space
    means AND. */
module QueryLanguage {
  import opened Bytes
  import opened QueryLexer
  import opened Postings

  datatype Query =
    | Match(word: seq<byte>)
    | Not(operand: Query)
    | And(left: Query, right: Query)
    | Or(left: Query, right: Query)
    | Nothing

  datatype Grammar = AsWritten | Intended

  /** The current token: END once the list is used up. */
  function Head(ts: seq<Token>): Token
  {
    if ts == [] then End else ts[0]
  }

  /** The tokens after advance(): at END, next_token keeps returning END. */
  function Skip(ts: seq<Token>): seq<Token>
  {
    if ts == [] then [] else ts[1..]
  }

  /** A token a factor can start with. */
  predicate StartsFactor(t: Token)
  {
    t == NotOp || t == LParen || t.Word?
  }

  /** The tokens on which the AND loop of parse_term goes on after a factor. */
  predicate ContinuesTerm(g: Grammar, t: Token)
  {
    t == AndOp || t.Word? || (g == Intended && StartsFactor(t))
  }

  /** `rest` is what is left of `ts` after a prefix has been consumed. */
  predicate Suffix(rest: seq<Token>, ts: seq<Token>)
    decreases |ts|
  {
    rest == ts || (ts != [] && Suffix(rest, ts[1..]))
  }

  lemma {:induction false} SuffixTransitive(a: seq<Token>, b: seq<Token>, c: seq<Token>)
    requires Suffix(a, b) && Suffix(b, c)
    ensures Suffix(a, c) && |a| <= |c|
    decreases |c|
  {
    if b != c {
      SuffixTransitive(a, b, c[1..]);
    } else if a != b {
      SuffixTransitive(a, b[1..], b[1..]);
    }
  }

  /** The tokens left are tokens of the input. */
  lemma {:induction false} SuffixMember(rest: seq<Token>, ts: seq<Token>)
    requires Suffix(rest, ts) && rest != []
    ensures rest[0] in ts
    decreases |ts|
  {
    if rest != ts {
      SuffixMember(rest, ts[1..]);
    }
  }

  /** parse_expression: a term, then the OR loop. It stops at a token that
      neither OR nor the term loop takes. */
  function Expression(g: Grammar, ts: seq<Token>): (r: (Query, seq<Token>))
    ensures Suffix(r.1, ts) && |r.1| <= |ts|
    ensures Head(r.1) != OrOp && !ContinuesTerm(g, Head(r.1))
    decreases |ts|, 4
  {
    var (left, rest) := Conjunction(g, ts);
    var r := OrChain(g, left, rest);
    SuffixTransitive(r.1, rest, ts);
    r
  }

  /** The OR loop of parse_expression: each `||` is consumed and the next term
      joined to what came before. */
  function OrChain(g: Grammar, left: Query, ts: seq<Token>): (r: (Query, seq<Token>))
    ensures Suffix(r.1, ts) && |r.1| <= |ts|
    ensures Head(r.1) != OrOp
    ensures !ContinuesTerm(g, Head(ts)) ==> !ContinuesTerm(g, Head(r.1))
    decreases |ts|, 3
  {
    if Head(ts) == OrOp then
      var (right, rest) := Conjunction(g, ts[1..]);
      var r := OrChain(g, Or(left, right), rest);
      SuffixTransitive(r.1, rest, ts[1..]);
      r
    else
      (left, ts)
  }

  /** parse_term: a factor, then the AND loop. */
  function Conjunction(g: Grammar, ts: seq<Token>): (r: (Query, seq<Token>))
    ensures Suffix(r.1, ts) && |r.1| <= |ts|
    ensures !ContinuesTerm(g, Head(r.1))
    decreases |ts|, 2
  {
    var (left, rest) := Factor(g, ts);
    var r := AndChain(g, left, rest);
    SuffixTransitive(r.1, rest, ts);
    r
  }

  /** The AND loop of parse_term: an explicit `&&` is consumed, a token that
      juxtaposes another factor is left for that factor. */
  function AndChain(g: Grammar, left: Query, ts: seq<Token>): (r: (Query, seq<Token>))
    ensures Suffix(r.1, ts) && |r.1| <= |ts|
    ensures !ContinuesTerm(g, Head(r.1))
    decreases |ts|, 1
  {
    if Head(ts) == AndOp then
      var (right, rest) := Factor(g, ts[1..]);
      var r := AndChain(g, And(left, right), rest);
      SuffixTransitive(r.1, rest, ts[1..]);
      r
    else if ContinuesTerm(g, Head(ts)) then
      var (right, rest) := Factor(g, ts);
      var r := AndChain(g, And(left, right), rest);
      SuffixTransitive(r.1, rest, ts);
      r
    else
      (left, ts)
  }

  /** parse_factor. A missing `)` is not an error; any token a factor cannot
      start with gives Nothing and stays unconsumed. */
  function Factor(g: Grammar, ts: seq<Token>): (r: (Query, seq<Token>))
    ensures Suffix(r.1, ts) && |r.1| <= |ts|
    ensures StartsFactor(Head(ts)) ==> |r.1| < |ts|
    ensures !StartsFactor(Head(ts)) ==> r == (Nothing, ts)
    decreases |ts|, 0
  {
    match Head(ts)
    case NotOp =>
      var (operand, rest) := Factor(g, ts[1..]);
      (Not(operand), rest)
    case LParen =>
      var (inner, rest) := Expression(g, ts[1..]);
      if Head(rest) == RParen then
        SuffixTransitive(rest[1..], rest, ts[1..]);
        (inner, rest[1..])
      else
        (inner, rest)
    case Word(w) =>
      (Match(w), ts[1..])
    case _ =>
      (Nothing, ts)
  }

  /** The query evaluate() parses from the whole token list; tokens left after
      it are ignored. */
  function ParseQuery(g: Grammar, ts: seq<Token>): Query
  {
    Expression(g, ts).0
  }

  /** The document list a query evaluates to: OR is union_postings, AND is
      intersect_postings and NOT is negate_postings over 1..total. */
  function Eval(q: Query, lookup: seq<byte> -> seq<nat>, total: nat): seq<nat>
  {
    match q
    case Match(w) => lookup(w)
    case Not(a) => Complement(Eval(a, lookup, total), total)
    case And(a, b) => Intersection(Eval(a, lookup, total), Eval(b, lookup, total))
    case Or(a, b) => Union(Eval(a, lookup, total), Eval(b, lookup, total))
    case Nothing => []
  }

  /** Whether document x satisfies the query, read as a Boolean formula. */
  ghost predicate Satisfies(q: Query, lookup: seq<byte> -> seq<nat>, total: nat, x: nat)
  {
    match q
    case Match(w) => x in lookup(w)
    case Not(a) => 1 <= x <= total && !Satisfies(a, lookup, total, x)
    case And(a, b) => Satisfies(a, lookup, total, x) && Satisfies(b, lookup, total, x)
    case Or(a, b) => Satisfies(a, lookup, total, x) || Satisfies(b, lookup, total, x)
    case Nothing => false
  }

  /** Posting lists as the index keeps them: ascending doc ids from 1 to total. */
  ghost predicate WellFormed(lookup: seq<byte> -> seq<nat>, total: nat)
  {
    forall w :: Ascending(lookup(w)) && forall x | x in lookup(w) :: 1 <= x <= total
  }

  /** With well-formed posting lists the result is again ascending, its ids
      lie in 1..total, and it holds exactly the documents satisfying the query. */
  lemma {:induction false} EvalCorrect(q: Query, lookup: seq<byte> -> seq<nat>, total: nat)
    requires WellFormed(lookup, total)
    ensures Ascending(Eval(q, lookup, total))
    ensures forall x | x in Eval(q, lookup, total) :: 1 <= x <= total
    ensures forall x: nat :: x in Eval(q, lookup, total) <==> Satisfies(q, lookup, total, x)
  {
    match q
    case Match(w) =>
    case Not(a) =>
      EvalCorrect(a, lookup, total);
      var e := Eval(a, lookup, total);
      forall i | 0 <= i < |e|
        ensures e[i] > 0
      {
        assert e[i] in e;
      }
      ComplementCorrect(e, total);
    case And(a, b) =>
      EvalCorrect(a, lookup, total);
      EvalCorrect(b, lookup, total);
      IntersectionCorrect(Eval(a, lookup, total), Eval(b, lookup, total));
    case Or(a, b) =>
      EvalCorrect(a, lookup, total);
      EvalCorrect(b, lookup, total);
      UnionCorrect(Eval(a, lookup, total), Eval(b, lookup, total));
    case Nothing =>
  }

  /** Juxtaposition is AND: an explicit `&&` before a word changes nothing. */
  lemma AndIsOptional(g: Grammar, left: Query, ts: seq<Token>)
    requires Head(ts).Word?
    ensures AndChain(g, left, [AndOp] + ts) == AndChain(g, left, ts)
  {
    assert ([AndOp] + ts)[1..] == ts;
  }

  /** A word is a factor of its own. */
  lemma FactorWord(g: Grammar, w: seq<byte>, ts: seq<Token>)
    ensures Factor(g, [Word(w)] + ts) == (Match(w), ts)
  {
    assert ([Word(w)] + ts)[1..] == ts;
  }

  /** Both loops stop at END. */
  lemma ChainsStop(g: Grammar, left: Query)
    ensures AndChain(g, left, []) == (left, []) && OrChain(g, left, []) == (left, [])
  {
  }

  /** A word alone is a whole expression. */
  lemma ExpressionWord(g: Grammar, w: seq<byte>)
    ensures Conjunction(g, [Word(w)]) == (Match(w), [])
    ensures Expression(g, [Word(w)]) == (Match(w), [])
  {
    FactorWord(g, w, []);
    assert [Word(w)] == [Word(w)] + [];
    ChainsStop(g, Match(w));
  }

  /** "a b" and "a && b" are the same query. */
  lemma JuxtapositionExample(a: seq<byte>, b: seq<byte>)
    ensures ParseQuery(AsWritten, [Word(a), Word(b)]) == And(Match(a), Match(b))
    ensures ParseQuery(AsWritten, [Word(a), AndOp, Word(b)]) == And(Match(a), Match(b))
  {
    var ab := And(Match(a), Match(b));
    assert AndChain(AsWritten, Match(a), [Word(b)]) == (ab, []) by {
      FactorWord(AsWritten, b, []);
      assert [Word(b)] == [Word(b)] + [];
      ChainsStop(AsWritten, ab);
    }
    assert Conjunction(AsWritten, [Word(a), Word(b)]) == (ab, []) by {
      FactorWord(AsWritten, a, [Word(b)]);
      assert [Word(a), Word(b)] == [Word(a)] + [Word(b)];
    }
    assert Conjunction(AsWritten, [Word(a), AndOp, Word(b)]) == (ab, []) by {
      AndIsOptional(AsWritten, Match(a), [Word(b)]);
      FactorWord(AsWritten, a, [AndOp, Word(b)]);
      assert [Word(a), AndOp, Word(b)] == [Word(a)] + [AndOp, Word(b)];
    }
    ChainsStop(AsWritten, ab);
  }

  /** AND binds tighter than OR: "a || b c" is a OR (b AND c). */
  lemma PrecedenceExample(a: seq<byte>, b: seq<byte>, c: seq<byte>)
    ensures Expression(AsWritten, [Word(a), OrOp, Word(b), Word(c)]) == (Or(Match(a), And(Match(b), Match(c))), [])
  {
    var bc := And(Match(b), Match(c));
    var orc := [OrOp, Word(b), Word(c)];
    assert Conjunction(AsWritten, [Word(b), Word(c)]) == (bc, []) by {
      assert AndChain(AsWritten, Match(b), [Word(c)]) == (bc, []) by {
        FactorWord(AsWritten, c, []);
        assert [Word(c)] == [Word(c)] + [];
        ChainsStop(AsWritten, bc);
      }
      FactorWord(AsWritten, b, [Word(c)]);
      assert [Word(b), Word(c)] == [Word(b)] + [Word(c)];
    }
    assert OrChain(AsWritten, Match(a), orc) == (Or(Match(a), bc), []) by {
      assert orc[1..] == [Word(b), Word(c)];
      ChainsStop(AsWritten, Or(Match(a), bc));
    }
    assert Conjunction(AsWritten, [Word(a)] + orc) == (Match(a), orc) by {
      FactorWord(AsWritten, a, orc);
    }
    assert [Word(a), OrOp, Word(b), Word(c)] == [Word(a)] + orc;
  }

  /** `!` binds tighter than AND: "!a b || c" is ((NOT a) AND b) OR c. */
  lemma NegationPrecedenceExample(a: seq<byte>, b: seq<byte>, c: seq<byte>)
    ensures Expression(AsWritten, [NotOp, Word(a), Word(b), OrOp, Word(c)]) == (Or(And(Not(Match(a)), Match(b)), Match(c)), [])
  {
    var na := Not(Match(a));
    var nab := And(na, Match(b));
    var oc := [OrOp, Word(c)];
    assert OrChain(AsWritten, nab, oc) == (Or(nab, Match(c)), []) by {
      assert oc[1..] == [Word(c)];
      ExpressionWord(AsWritten, c);
      ChainsStop(AsWritten, Or(nab, Match(c)));
    }
    assert AndChain(AsWritten, na, [Word(b)] + oc) == (nab, oc) by {
      FactorWord(AsWritten, b, oc);
    }
    assert Factor(AsWritten, [NotOp, Word(a), Word(b)] + oc) == (na, [Word(b)] + oc) by {
      FactorWord(AsWritten, a, [Word(b)] + oc);
      assert ([NotOp, Word(a), Word(b)] + oc)[1..] == [Word(a)] + ([Word(b)] + oc);
    }
    assert [NotOp, Word(a), Word(b), OrOp, Word(c)] == [NotOp, Word(a), Word(b)] + oc;
  }

  /** A group with its `)` missing is read to the end; a query starting with
      `)` is Nothing and consumes no token. */
  lemma UnbalancedExample(a: seq<byte>)
    ensures Expression(AsWritten, [LParen, Word(a)]) == (Match(a), [])
    ensures Expression(AsWritten, [RParen, Word(a)]) == (Nothing, [RParen, Word(a)])
  {
    ExpressionWord(AsWritten, a);
    assert [LParen, Word(a)][1..] == [Word(a)];
    assert Factor(AsWritten, [LParen, Word(a)]) == (Match(a), []);
    assert Conjunction(AsWritten, [LParen, Word(a)]) == (Match(a), []);
    var ra := [RParen, Word(a)];
    assert Factor(AsWritten, ra) == (Nothing, ra);
    assert AndChain(AsWritten, Nothing, ra) == (Nothing, ra);
    assert Conjunction(AsWritten, ra) == (Nothing, ra);
    assert OrChain(AsWritten, Nothing, ra) == (Nothing, ra);
  }

  /** As written, a factor followed by `!` or `(` ends the query: the rest of
      "a !b" is never looked at, so the query means just a. */
  lemma NegationDropped(a: seq<byte>, b: seq<byte>)
    ensures Expression(AsWritten, [Word(a), NotOp, Word(b)]) == (Match(a), [NotOp, Word(b)])
    ensures Expression(AsWritten, [Word(a), LParen, Word(b)]) == (Match(a), [LParen, Word(b)])
  {
    FactorWord(AsWritten, a, [NotOp, Word(b)]);
    assert [Word(a), NotOp, Word(b)] == [Word(a)] + [NotOp, Word(b)];
    assert Conjunction(AsWritten, [Word(a), NotOp, Word(b)]) == (Match(a), [NotOp, Word(b)]);
    FactorWord(AsWritten, a, [LParen, Word(b)]);
    assert [Word(a), LParen, Word(b)] == [Word(a)] + [LParen, Word(b)];
    assert Conjunction(AsWritten, [Word(a), LParen, Word(b)]) == (Match(a), [LParen, Word(b)]);
  }

  /** With juxtaposition extended to `!` and `(`, "a !b" is a AND NOT b, and a
      query with no `)` is consumed to its last token. */
  lemma {:induction false} IntendedConsumesAll(ts: seq<Token>, a: seq<byte>, b: seq<byte>)
    ensures RParen !in ts && End !in ts ==> Expression(Intended, ts).1 == []
    ensures Expression(Intended, [Word(a), NotOp, Word(b)]) == (And(Match(a), Not(Match(b))), [])
  {
    var rest := Expression(Intended, ts).1;
    if RParen !in ts && End !in ts && rest != [] {
      SuffixMember(rest, ts);
    }
    var anb := And(Match(a), Not(Match(b)));
    FactorWord(Intended, b, []);
    assert [NotOp, Word(b)][1..] == [Word(b)] + [];
    assert Factor(Intended, [NotOp, Word(b)]) == (Not(Match(b)), []);
    ChainsStop(Intended, anb);
    assert AndChain(Intended, Match(a), [NotOp, Word(b)]) == (anb, []);
    FactorWord(Intended, a, [NotOp, Word(b)]);
    assert [Word(a), NotOp, Word(b)] == [Word(a)] + [NotOp, Word(b)];
    assert Conjunction(Intended, [Word(a), NotOp, Word(b)]) == (anb, []);
  }

  /** As written, parsing can stop before the last token only at `)`, `!` or
      `(`: the operators and words are always consumed. */
  lemma AsWrittenStops(ts: seq<Token>)
    ensures var h := Head(Expression(AsWritten, ts).1); h == End || h == RParen || h == NotOp || h == LParen
  {
  }
}
