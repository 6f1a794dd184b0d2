/**
 * A restaurant's popularity: how many customers' books list it, and the
 * five-star rating derived from that count and the number of books.
 */
module Notation {

  type CustomerId = nat
  type RestaurantId = nat

  /** A customer's book of favourite restaurants (one book per customer). */
  datatype Book = Book(customer: CustomerId, restaurants: set<RestaurantId>)

  const MAX_STARS: nat := 5

  /** The number of books that list restaurant r. */
  function BookCount(books: seq<Book>, r: RestaurantId): (n: nat)
    ensures n <= |books|
    ensures n == 0 <==> forall i :: 0 <= i < |books| ==> r !in books[i].restaurants
    ensures n == |books| <==> forall i :: 0 <= i < |books| ==> r in books[i].restaurants
    decreases |books|
  {
    if books == [] then 0
    else (if r in books[0].restaurants then 1 else 0) + BookCount(books[1..], r)
  }

  /** Python's `[v] * n`: n copies of v, none when n is zero or negative. */
  function Repeat(v: int, n: int): (s: seq<int>)
    ensures |s| == (if n <= 0 then 0 else n)
    ensures forall i :: 0 <= i < |s| ==> s[i] == v
  {
    if n <= 0 then [] else seq(n, _ => v)
  }

  datatype Rating = Rating(stars: seq<int>, books: nat)

  /** score ones followed by zeros up to five stars. */
  function Stars(score: nat): (s: seq<int>)
    requires score <= MAX_STARS
    ensures |s| == MAX_STARS
    ensures forall i :: 0 <= i < MAX_STARS ==> (s[i] == 1 <==> i < score) && (s[i] == 0 <==> score <= i)
  {
    Repeat(1, score) + Repeat(0, MAX_STARS - score)
  }

  /** int(5 * books / total) for 0 <= books <= total: at most five. */
  function Score(books: nat, total: nat): (score: nat)
    requires 0 < total && books <= total
    ensures score <= MAX_STARS
  {
    ScoreBound(books, total);
    MAX_STARS * books / total
  }

  lemma ScoreBound(books: nat, total: nat)
    requires 0 < total && books <= total
    ensures MAX_STARS * books / total <= MAX_STARS
  {
    FloorBelow(MAX_STARS * books, total, MAX_STARS);
  }

  /** Restaurant.computed_notation over the book table: the score is
      5 * books / total rounded down, where an empty table counts as one
      book, and the stars are that many ones followed by zeros. */
  function ComputedNotation(all: seq<Book>, r: RestaurantId): (n: Rating)
    ensures n.books == BookCount(all, r)
    ensures |n.stars| == MAX_STARS
    ensures forall i :: 0 <= i < MAX_STARS ==> n.stars[i] == 0 || n.stars[i] == 1
  {
    var total := if |all| == 0 then 1 else |all|;
    var books := BookCount(all, r);
    Rating(Stars(Score(books, total)), books)
  }

  /** For a positive divisor t: i < a / t exactly when (i + 1) * t <= a. */
  lemma FloorBelow(a: nat, t: nat, i: nat)
    requires t > 0
    ensures i < a / t <==> (i + 1) * t <= a
  {
    var q := a / t;
    assert a == q * t + a % t && 0 <= a % t < t;
    if i < q {
      assert (i + 1) * t <= q * t;
    } else {
      assert q * t <= i * t;
      assert (i + 1) * t == i * t + t;
    }
  }

  /** Star i is lit exactly when at least (i + 1) fifths of the books list
      the restaurant (an empty table counting as one book). */
  lemma StarLit(all: seq<Book>, r: RestaurantId, i: nat)
    requires i < MAX_STARS
    ensures var n := ComputedNotation(all, r);
      n.stars[i] == 1 <==> (i + 1) * (if |all| == 0 then 1 else |all|) <= MAX_STARS * n.books
  {
    var total := if |all| == 0 then 1 else |all|;
    FloorBelow(MAX_STARS * BookCount(all, r), total, i);
  }

  /** The stars are lit from the left: a lit star has only lit stars before it. */
  lemma StarsFromTheLeft(all: seq<Book>, r: RestaurantId)
    ensures var s := ComputedNotation(all, r).stars;
      forall i, j :: 0 <= i < j < MAX_STARS && s[j] == 1 ==> s[i] == 1
  {
    var s := ComputedNotation(all, r).stars;
    var total := if |all| == 0 then 1 else |all|;
    forall i, j | 0 <= i < j < MAX_STARS && s[j] == 1 ensures s[i] == 1 {
      StarLit(all, r, i);
      StarLit(all, r, j);
      assert (i + 1) * total <= (j + 1) * total;
    }
  }

  /** A restaurant listed in every book of a non-empty table has five stars;
      one listed in no book has none. */
  lemma NotationExtremes(all: seq<Book>, r: RestaurantId)
    ensures (|all| > 0 && forall i :: 0 <= i < |all| ==> r in all[i].restaurants) ==>
      ComputedNotation(all, r).stars == [1, 1, 1, 1, 1]
    ensures (forall i :: 0 <= i < |all| ==> r !in all[i].restaurants) ==>
      ComputedNotation(all, r).stars == [0, 0, 0, 0, 0]
  {
    var n := ComputedNotation(all, r);
    if |all| > 0 && forall i :: 0 <= i < |all| ==> r in all[i].restaurants {
      assert n.books == |all|;
      forall i | 0 <= i < MAX_STARS ensures n.stars[i] == 1 {
        StarLit(all, r, i);
        assert (i + 1) * |all| <= MAX_STARS * |all|;
      }
    }
    if forall i :: 0 <= i < |all| ==> r !in all[i].restaurants {
      assert n.books == 0;
      var total := if |all| == 0 then 1 else |all|;
      forall i | 0 <= i < MAX_STARS ensures n.stars[i] == 0 {
        StarLit(all, r, i);
        assert (i + 1) * total > 0;
      }
    }
  }

  /** The unit test's table: both customers' books list the restaurant. */
  lemma TwoOfTwoBooks(r: RestaurantId)
    ensures var n := ComputedNotation([Book(1, {r}), Book(2, {r})], r);
      n.stars == [1, 1, 1, 1, 1] && n.books == 2
  {
    NotationExtremes([Book(1, {r}), Book(2, {r})], r);
  }
}
