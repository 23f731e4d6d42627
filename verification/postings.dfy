/** The posting-list algebra of the search engine: sorted-merge intersection,
    union and complement of document-id lists (src/searcher.h).

    Each operation has a recursive reference definition that follows the merge
    the source performs, element by element, for ANY input lists; the methods
    are the source's two-index loops, proved equal to those definitions. The
    lemmas then say what the definitions mean as sets when the lists are sorted. */
module Postings {

  /** Strictly ascending: sorted and free of duplicates, as posting lists are. */
  ghost predicate Ascending(s: seq<nat>)
  {
    forall i, j | 0 <= i < j < |s| :: s[i] < s[j]
  }

  /** Every element is strictly greater than `x`. */
  ghost predicate Above(s: seq<nat>, x: int)
  {
    forall i | 0 <= i < |s| :: s[i] > x
  }

  // ---------------------------------------------------------------------
  // Reference definitions

  /** The merge of intersect_postings: equal heads are kept once, the smaller head is dropped. */
  function Intersection(a: seq<nat>, b: seq<nat>): seq<nat>
    decreases |a| + |b|
  {
    if a == [] || b == [] then []
    else if a[0] == b[0] then [a[0]] + Intersection(a[1..], b[1..])
    else if a[0] < b[0] then Intersection(a[1..], b)
    else Intersection(a, b[1..])
  }

  /** The merge of union_postings: equal heads are kept once, otherwise the smaller head. */
  function Union(a: seq<nat>, b: seq<nat>): seq<nat>
    decreases |a| + |b|
  {
    if a == [] then b
    else if b == [] then a
    else if a[0] == b[0] then [a[0]] + Union(a[1..], b[1..])
    else if a[0] < b[0] then [a[0]] + Union(a[1..], b)
    else [b[0]] + Union(a, b[1..])
  }

  /** The walk of negate_postings over doc ids d..total: an id equal to the
      list's head consumes that head, any other id is emitted. */
  function ComplementFrom(s: seq<nat>, d: nat, total: nat): seq<nat>
    decreases total + 1 - d
  {
    if d > total then []
    else if s != [] && s[0] == d then ComplementFrom(s[1..], d + 1, total)
    else [d] + ComplementFrom(s, d + 1, total)
  }

  /** negate_postings(list, total_docs): the walk starts at doc id 1. */
  function Complement(s: seq<nat>, total: nat): seq<nat>
  {
    ComplementFrom(s, 1, total)
  }

  // ---------------------------------------------------------------------
  // The source's loops

  /** intersect_postings (src/searcher.h:210-228). */
  method IntersectPostings(a: seq<nat>, b: seq<nat>) returns (r: seq<nat>)
    ensures r == Intersection(a, b)
  {
    r := [];
    var i, j := 0, 0;
    while i < |a| && j < |b|
      invariant 0 <= i <= |a| && 0 <= j <= |b|
      invariant r + Intersection(a[i..], b[j..]) == Intersection(a, b)
      decreases |a| - i + |b| - j
    {
      assert a[i..][1..] == a[i + 1..] && b[j..][1..] == b[j + 1..];
      if a[i] == b[j] {
        r := r + [a[i]];
        i, j := i + 1, j + 1;
      } else if a[i] < b[j] {
        i := i + 1;
      } else {
        j := j + 1;
      }
    }
    assert a[i..] == [] || b[j..] == [];
    assert r + [] == r;
  }

  /** union_postings (src/searcher.h:230-253): the merge loop, then the two tail loops. */
  method UnionPostings(a: seq<nat>, b: seq<nat>) returns (r: seq<nat>)
    ensures r == Union(a, b)
  {
    r := [];
    var i, j := 0, 0;
    assert a[0..] == a && b[0..] == b && [] + Union(a, b) == Union(a, b);
    while i < |a| && j < |b|
      invariant 0 <= i <= |a| && 0 <= j <= |b|
      invariant r + Union(a[i..], b[j..]) == Union(a, b)
      decreases |a| - i + |b| - j
    {
      UnionStep(a[i..], b[j..]);
      assert a[i..][1..] == a[i + 1..] && b[j..][1..] == b[j + 1..];
      if a[i] == b[j] {
        MovedOut(r, a[i], Union(a[i + 1..], b[j + 1..]));
        r := r + [a[i]];
        i, j := i + 1, j + 1;
      } else if a[i] < b[j] {
        MovedOut(r, a[i], Union(a[i + 1..], b[j..]));
        r := r + [a[i]];
        i := i + 1;
      } else {
        MovedOut(r, b[j], Union(a[i..], b[j + 1..]));
        r := r + [b[j]];
        j := j + 1;
      }
    }
    UnionUsedUp(a[i..], b[j..]);
    MovedRest(r, a[i..], b[j..]);
    r := CopyRest(r, a, i);
    r := CopyRest(r, b, j);
  }

  /** A tail loop of union_postings: the rest of s from k on goes to the
      output. */
  method CopyRest(r: seq<nat>, s: seq<nat>, k: nat) returns (r': seq<nat>)
    requires k <= |s|
    ensures r' == r + s[k..]
  {
    r' := r;
    var i := k;
    while i < |s|
      invariant k <= i <= |s| && r' + s[i..] == r + s[k..]
    {
      MovedOut(r', s[i], s[i + 1..]);
      assert s[i..] == [s[i]] + s[i + 1..];
      r' := r' + [s[i]];
      i := i + 1;
    }
    assert r' + [] == r';
  }

  lemma MovedRest(r: seq<nat>, a: seq<nat>, b: seq<nat>)
    ensures r + (a + b) == (r + a) + b
  {
  }

  /** Moving the head of what is left to the output. */
  lemma MovedOut(r: seq<nat>, x: nat, rest: seq<nat>)
    ensures r + ([x] + rest) == (r + [x]) + rest
  {
  }

  /** Once one list is used up, the union is the other list. */
  lemma UnionUsedUp(a: seq<nat>, b: seq<nat>)
    requires a == [] || b == []
    ensures Union(a, b) == a + b
  {
    if a == [] {
      assert a + b == b;
    } else {
      assert a + b == a;
    }
  }

  /** One step of the union merge, for the loop above. */
  lemma UnionStep(a: seq<nat>, b: seq<nat>)
    requires a != [] && b != []
    ensures a[0] == b[0] ==> Union(a, b) == [a[0]] + Union(a[1..], b[1..])
    ensures a[0] < b[0] ==> Union(a, b) == [a[0]] + Union(a[1..], b)
    ensures a[0] > b[0] ==> Union(a, b) == [b[0]] + Union(a, b[1..])
  {
  }

  /** negate_postings (src/searcher.h:255-269). The source counts doc_id in a
      uint32, which would wrap and never exceed total_docs = 2^32 - 1. */
  method NegatePostings(s: seq<nat>, total: nat) returns (r: seq<nat>)
    requires total < 0xFFFF_FFFF
    ensures r == Complement(s, total)
  {
    r := [];
    var j := 0;
    var d := 1;
    while d <= total
      invariant 1 <= d <= total + 1 && 0 <= j <= |s|
      invariant r + ComplementFrom(s[j..], d, total) == Complement(s, total)
      decreases total + 1 - d
    {
      if j < |s| && s[j] == d {
        assert s[j..][1..] == s[j + 1..];
        j := j + 1;
      } else {
        assert j == |s| ==> s[j..] == [];
        r := r + [d];
      }
      d := d + 1;
    }
    assert r + [] == r;
  }

  // ---------------------------------------------------------------------
  // What the definitions mean

  lemma {:induction false} IntersectionMembers(a: seq<nat>, b: seq<nat>, x: nat)
    ensures x in Intersection(a, b) ==> x in a && x in b
    ensures Ascending(a) && Ascending(b) && x in a && x in b ==> x in Intersection(a, b)
    decreases |a| + |b|
  {
    if a != [] && b != [] {
      assert a == [a[0]] + a[1..] && b == [b[0]] + b[1..];
      if a[0] == b[0] {
        IntersectionMembers(a[1..], b[1..], x);
        if Ascending(a) && Ascending(b) && x in a && x in b && x != a[0] {
          assert x in a[1..] && x in b[1..];
        }
      } else if a[0] < b[0] {
        IntersectionMembers(a[1..], b, x);
        if Ascending(a) && Ascending(b) && x in a && x in b {
          assert x != a[0] by {
            var k :| 0 <= k < |b| && b[k] == x;
            assert k == 0 || b[0] < b[k];
          }
        }
      } else {
        IntersectionMembers(a, b[1..], x);
        if Ascending(a) && Ascending(b) && x in a && x in b {
          assert x != b[0] by {
            var k :| 0 <= k < |a| && a[k] == x;
            assert k == 0 || a[0] < a[k];
          }
        }
      }
    }
  }

  lemma AscendingTail(s: seq<nat>)
    requires Ascending(s) && s != []
    ensures Ascending(s[1..]) && Above(s[1..], s[0])
  {
  }

  lemma AscendingCons(x: nat, s: seq<nat>)
    requires Ascending(s) && Above(s, x)
    ensures Ascending([x] + s)
  {
  }

  /** For sorted inputs, intersect_postings yields a sorted list holding
      exactly the ids present in both. */
  lemma {:induction false} IntersectionCorrect(a: seq<nat>, b: seq<nat>)
    requires Ascending(a) && Ascending(b)
    ensures Ascending(Intersection(a, b))
    ensures forall x :: x in Intersection(a, b) <==> x in a && x in b
    decreases |a| + |b|
  {
    forall x {
      IntersectionMembers(a, b, x);
    }
    if a != [] && b != [] {
      AscendingTail(a);
      AscendingTail(b);
      if a[0] == b[0] {
        IntersectionCorrect(a[1..], b[1..]);
        var t := Intersection(a[1..], b[1..]);
        forall i | 0 <= i < |t| ensures t[i] > a[0] {
          IntersectionMembers(a[1..], b[1..], t[i]);
        }
        AscendingCons(a[0], t);
      } else if a[0] < b[0] {
        IntersectionCorrect(a[1..], b);
      } else {
        IntersectionCorrect(a, b[1..]);
      }
    }
  }

  lemma {:induction false} UnionMembers(a: seq<nat>, b: seq<nat>)
    ensures forall x :: x in Union(a, b) <==> x in a || x in b
    ensures |Union(a, b)| <= |a| + |b|
    decreases |a| + |b|
  {
    if a != [] && b != [] {
      assert a == [a[0]] + a[1..] && b == [b[0]] + b[1..];
      if a[0] == b[0] {
        UnionMembers(a[1..], b[1..]);
      } else if a[0] < b[0] {
        UnionMembers(a[1..], b);
      } else {
        UnionMembers(a, b[1..]);
      }
    }
  }

  /** For any inputs union_postings keeps every id of either list and no other,
      within size1 + size2 entries; for sorted inputs the result is sorted. */
  lemma {:induction false} UnionCorrect(a: seq<nat>, b: seq<nat>)
    ensures forall x :: x in Union(a, b) <==> x in a || x in b
    ensures |Union(a, b)| <= |a| + |b|
    ensures Ascending(a) && Ascending(b) ==> Ascending(Union(a, b))
    decreases |a| + |b|
  {
    UnionMembers(a, b);
    if a != [] && b != [] && Ascending(a) && Ascending(b) {
      AscendingTail(a);
      AscendingTail(b);
      if a[0] == b[0] {
        UnionCorrect(a[1..], b[1..]);
        AboveUnion(a[1..], b[1..], a[0]);
        AscendingCons(a[0], Union(a[1..], b[1..]));
      } else if a[0] < b[0] {
        UnionCorrect(a[1..], b);
        AboveHead(b, a[0]);
        AboveUnion(a[1..], b, a[0]);
        AscendingCons(a[0], Union(a[1..], b));
      } else {
        UnionCorrect(a, b[1..]);
        AboveHead(a, b[0]);
        AboveUnion(a, b[1..], b[0]);
        AscendingCons(b[0], Union(a, b[1..]));
      }
    }
  }

  lemma AboveHead(s: seq<nat>, x: int)
    requires Ascending(s) && s != [] && s[0] > x
    ensures Above(s, x)
  {
    forall i | 0 < i < |s| ensures s[i] > x { assert s[0] < s[i]; }
  }

  lemma AboveUnion(a: seq<nat>, b: seq<nat>, x: int)
    requires Above(a, x) && Above(b, x)
    ensures Above(Union(a, b), x)
  {
    UnionMembers(a, b);
    var u := Union(a, b);
    forall i | 0 <= i < |u| ensures u[i] > x {
      assert u[i] in u;
      if u[i] in a {
        var k :| 0 <= k < |a| && a[k] == u[i];
      } else {
        var k :| 0 <= k < |b| && b[k] == u[i];
      }
    }
  }

  lemma {:induction false} ComplementFromCorrect(s: seq<nat>, d: nat, total: nat)
    requires Ascending(s) && Above(s, d - 1)
    ensures Ascending(ComplementFrom(s, d, total)) && Above(ComplementFrom(s, d, total), d - 1)
    ensures forall x :: x in ComplementFrom(s, d, total) <==> d <= x <= total && x !in s
    decreases total + 1 - d
  {
    if d <= total {
      if s != [] && s[0] == d {
        AscendingTail(s);
        ComplementFromCorrect(s[1..], d + 1, total);
        assert s == [s[0]] + s[1..];
      } else {
        assert Above(s, d) by {
          if s != [] {
            assert s[0] > d;
            forall i | 0 < i < |s| ensures s[i] > d { assert s[0] < s[i]; }
          }
        }
        ComplementFromCorrect(s, d + 1, total);
        AscendingCons(d, ComplementFrom(s, d + 1, total));
      }
    }
  }

  /** For a sorted list of ids from 1 up, negate_postings yields, in ascending
      order, exactly the ids 1..total_docs that the list does not hold. */
  lemma ComplementCorrect(s: seq<nat>, total: nat)
    requires Ascending(s) && Above(s, 0)
    ensures Ascending(Complement(s, total))
    ensures forall x :: x in Complement(s, total) <==> 1 <= x <= total && x !in s
  {
    ComplementFromCorrect(s, 1, total);
  }

  /** Whatever the list holds, the complement is ascending and within 1..total. */
  lemma {:induction false} ComplementBounded(s: seq<nat>, d: nat, total: nat)
    ensures Ascending(ComplementFrom(s, d, total))
    ensures forall x :: x in ComplementFrom(s, d, total) ==> d <= x <= total
    decreases total + 1 - d
  {
    if d <= total {
      if s != [] && s[0] == d {
        ComplementBounded(s[1..], d + 1, total);
      } else {
        ComplementBounded(s, d + 1, total);
        var t := ComplementFrom(s, d + 1, total);
        assert Above(t, d) by {
          forall i | 0 <= i < |t| ensures t[i] > d { assert t[i] in t; }
        }
        AscendingCons(d, t);
      }
    }
  }

  lemma HeadIsLeast(s: seq<nat>, x: nat)
    requires Ascending(s) && x in s
    ensures s[0] <= x
  {
    var i :| 0 <= i < |s| && s[i] == x;
    assert i == 0 || s[0] < s[i];
  }

  lemma HeadIsMember(s: seq<nat>)
    requires s != []
    ensures s[0] in s
  {
  }

  /** Two ascending lists with the same members are the same list: this is why
      the set-level statements above determine the sorted results. */
  lemma {:induction false} AscendingUnique(a: seq<nat>, b: seq<nat>)
    requires Ascending(a) && Ascending(b)
    requires forall x :: x in a <==> x in b
    ensures a == b
    decreases |a|
  {
    if a != [] && b != [] {
      AscendingTail(a);
      AscendingTail(b);
      assert a[0] == b[0] by {
        HeadIsLeast(b, a[0]);
        HeadIsLeast(a, b[0]);
      }
      forall x ensures x in a[1..] <==> x in b[1..] {
        if x in a[1..] {
          assert x in b && x != b[0];
          assert x in b[1..] by { assert b == [b[0]] + b[1..]; }
        }
        if x in b[1..] {
          assert x in a && x != a[0];
          assert x in a[1..] by { assert a == [a[0]] + a[1..]; }
        }
      }
      AscendingUnique(a[1..], b[1..]);
      assert a == [a[0]] + a[1..] && b == [b[0]] + b[1..];
    } else if a != [] {
      HeadIsMember(a);
      assert false;
    } else if b != [] {
      HeadIsMember(b);
      assert false;
    }
  }
}
