/** The catalogue search: a case-insensitive substring match on a book's
    title, author or ISBN, keeping catalogue order. */
module Search {
  import opened ArrayOps
  import opened Catalog

  /** Lower-cases the ASCII letters A-Z and leaves every other character as it is. */
  function LowerChar(c: char): (r: char)
    ensures !('A' <= r <= 'Z')
    ensures 'A' <= c <= 'Z' ==> r as int == c as int + 32
    ensures !('A' <= c <= 'Z') ==> r == c
  {
    if 'A' <= c <= 'Z' then (c as int + 32) as char else c
  }

  /** `s.toLowerCase()`, for ASCII letters. */
  function Lower(s: string): (r: string)
    ensures |r| == |s|
    ensures forall i :: 0 <= i < |s| ==> r[i] == LowerChar(s[i])
  {
    if s == [] then [] else [LowerChar(s[0])] + Lower(s[1..])
  }

  /** Lower-casing twice is lower-casing once. */
  lemma LowerIdempotent(s: string)
    ensures Lower(Lower(s)) == Lower(s)
  {
  }

  /** `t` occurs in `s` starting at position `i`. */
  ghost predicate OccursAt(s: string, t: string, i: int)
  {
    0 <= i && i + |t| <= |s| && s[i..i + |t|] == t
  }

  /** `s.includes(t)`: `t` occurs somewhere in `s`. */
  function Contains(s: string, t: string): (r: bool)
    ensures r <==> exists i :: OccursAt(s, t, i)
    decreases |s|
  {
    if |t| > |s| then false
    else if s[..|t|] == t then assert OccursAt(s, t, 0); true
    else OccursLater(s, t); Contains(s[1..], t)
  }

  /** When `t` is not a prefix of `s`, it occurs in `s` exactly when it occurs in `s[1..]`. */
  lemma OccursLater(s: string, t: string)
    requires |t| <= |s| && s[..|t|] != t
    ensures s != []
    ensures (exists i :: OccursAt(s, t, i)) <==> (exists i :: OccursAt(s[1..], t, i))
  {
    if exists i :: OccursAt(s, t, i) {
      var i :| OccursAt(s, t, i);
      assert i != 0;
      assert s[1..][i - 1..i - 1 + |t|] == s[i..i + |t|];
      assert OccursAt(s[1..], t, i - 1);
    }
    if exists i :: OccursAt(s[1..], t, i) {
      var i :| OccursAt(s[1..], t, i);
      assert s[1..][i..i + |t|] == s[i + 1..i + 1 + |t|];
      assert OccursAt(s, t, i + 1);
    }
  }

  /** A book matches a lower-cased term when its lower-cased title, author or ISBN contains it. */
  predicate Matches(b: Book, term: string)
    ensures term == [] ==> Matches(b, term)
    ensures Matches(b, term) ==> |term| <= |b.title| || |term| <= |b.author| || |term| <= |b.isbn|
  {
    Contains(Lower(b.title), term) || Contains(Lower(b.author), term) || Contains(Lower(b.isbn), term)
  }

  function MatchesTerm(term: string): Book -> bool { (b: Book) => Matches(b, term) }

  /** The books shown for a search: all of them for an empty term, otherwise those matching the
      lower-cased term. */
  function SearchBooks(books: seq<Book>, rawTerm: string): (r: seq<Book>)
    ensures rawTerm == [] ==> r == books
    ensures rawTerm != [] ==> forall i :: 0 <= i < |r| ==> r[i] in books && Matches(r[i], Lower(rawTerm))
    ensures rawTerm != [] ==> forall i :: 0 <= i < |books| && Matches(books[i], Lower(rawTerm)) ==> books[i] in r
  {
    var term := Lower(rawTerm);
    if term == [] then books else Filter(books, MatchesTerm(term))
  }

  /** The result is the catalogue with the non-matching books deleted: catalogue order is kept,
      and each matching book appears as often as it appears in the catalogue. */
  lemma SearchIsOrderedSelection(books: seq<Book>, rawTerm: string, b: Book)
    ensures SubseqOf(SearchBooks(books, rawTerm), books)
    ensures multiset(SearchBooks(books, rawTerm))[b]
         == if rawTerm == [] || Matches(b, Lower(rawTerm)) then multiset(books)[b] else 0
  {
    var term := Lower(rawTerm);
    if term == [] {
      FilterIsSubseq(books, MatchesTerm(term));
      EmptyTermMatchesAll(books);
    } else {
      FilterIsSubseq(books, MatchesTerm(term));
      FilterMultiplicity(books, MatchesTerm(term), b);
    }
  }

  /** The empty term is contained in every field, so the shortcut for it agrees with the filter. */
  lemma EmptyTermMatchesAll(books: seq<Book>)
    ensures Filter(books, MatchesTerm([])) == books
  {
    FilterKeepsAll(books, MatchesTerm([]));
  }

  /** The search ignores the case of the term. */
  lemma SearchIgnoresTermCase(books: seq<Book>, rawTerm: string)
    ensures SearchBooks(books, Lower(rawTerm)) == SearchBooks(books, rawTerm)
  {
    LowerIdempotent(rawTerm);
  }
}
